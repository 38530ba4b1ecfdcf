/** That the functions and constants of the hash are those of FIPS 180-4: each is told from any other by a law. */
module Sha256Laws {
  import opened Arith
  import opened Words
  import opened Sha256
  import Bits

  // The constants

  const P0: seq<int> := [2, 3, 5, 7, 11, 13, 17, 19]
  const P1: seq<int> := [23, 29, 31, 37, 41, 43, 47, 53]
  const P2: seq<int> := [59, 61, 67, 71, 73, 79, 83, 89]
  const P3: seq<int> := [97, 101, 103, 107, 109, 113, 127, 131]
  const P4: seq<int> := [137, 139, 149, 151, 157, 163, 167, 173]
  const P5: seq<int> := [179, 181, 191, 193, 197, 199, 211, 223]
  const P6: seq<int> := [227, 229, 233, 239, 241, 251, 257, 263]
  const P7: seq<int> := [269, 271, 277, 281, 283, 293, 307, 311]

  const PRIMES: seq<int> := P0 + P1 + P2 + P3 + P4 + P5 + P6 + P7

  predicate Divides(d: int, n: int)
    requires d > 0
  {
    n % d == 0
  }

  predicate IsPrime(n: int)
  {
    n >= 2 && forall d :: 2 <= d < n ==> !Divides(d, n)
  }

  /** k is the first 32 bits of the fraction of the square root of p. */
  ghost predicate SquareFraction(p: int, k: word)
  {
    exists q: nat :: IsSquareRoot(p, q * BASE + k)
  }

  predicate IsSquareRoot(p: int, x: int)
  {
    x * x <= p * 0x1_0000_0000_0000_0000 < (x + 1) * (x + 1)
  }

  /** k is the first 32 bits of the fraction of the cube root of p. */
  ghost predicate CubeFraction(p: int, k: word)
  {
    exists q: nat :: IsCubeRoot(p, q * BASE + k)
  }

  predicate IsCubeRoot(p: int, x: int)
  {
    x * x * x <= p * 0x1_0000_0000_0000_0000_0000_0000 < (x + 1) * (x + 1) * (x + 1)
  }

  ghost predicate AllCubeRoots(ps: seq<int>, ks: seq<word>)
  {
    |ps| == |ks| && forall i :: 0 <= i < |ps| ==> CubeFraction(ps[i], ks[i])
  }

  lemma Roots0()
    ensures AllCubeRoots(P0, K0)
  {
    assert IsCubeRoot(2, 1 * BASE + 0x428a2f98);
    assert IsCubeRoot(3, 1 * BASE + 0x71374491);
    assert IsCubeRoot(5, 1 * BASE + 0xb5c0fbcf);
    assert IsCubeRoot(7, 1 * BASE + 0xe9b5dba5);
    assert IsCubeRoot(11, 2 * BASE + 0x3956c25b);
    assert IsCubeRoot(13, 2 * BASE + 0x59f111f1);
    assert IsCubeRoot(17, 2 * BASE + 0x923f82a4);
    assert IsCubeRoot(19, 2 * BASE + 0xab1c5ed5);
  }

  lemma Roots1()
    ensures AllCubeRoots(P1, K1)
  {
    assert IsCubeRoot(23, 2 * BASE + 0xd807aa98);
    assert IsCubeRoot(29, 3 * BASE + 0x12835b01);
    assert IsCubeRoot(31, 3 * BASE + 0x243185be);
    assert IsCubeRoot(37, 3 * BASE + 0x550c7dc3);
    assert IsCubeRoot(41, 3 * BASE + 0x72be5d74);
    assert IsCubeRoot(43, 3 * BASE + 0x80deb1fe);
    assert IsCubeRoot(47, 3 * BASE + 0x9bdc06a7);
    assert IsCubeRoot(53, 3 * BASE + 0xc19bf174);
  }

  lemma Roots2()
    ensures AllCubeRoots(P2, K2)
  {
    assert IsCubeRoot(59, 3 * BASE + 0xe49b69c1);
    assert IsCubeRoot(61, 3 * BASE + 0xefbe4786);
    assert IsCubeRoot(67, 4 * BASE + 0x0fc19dc6);
    assert IsCubeRoot(71, 4 * BASE + 0x240ca1cc);
    assert IsCubeRoot(73, 4 * BASE + 0x2de92c6f);
    assert IsCubeRoot(79, 4 * BASE + 0x4a7484aa);
    assert IsCubeRoot(83, 4 * BASE + 0x5cb0a9dc);
    assert IsCubeRoot(89, 4 * BASE + 0x76f988da);
  }

  lemma Roots3()
    ensures AllCubeRoots(P3, K3)
  {
    assert IsCubeRoot(97, 4 * BASE + 0x983e5152);
    assert IsCubeRoot(101, 4 * BASE + 0xa831c66d);
    assert IsCubeRoot(103, 4 * BASE + 0xb00327c8);
    assert IsCubeRoot(107, 4 * BASE + 0xbf597fc7);
    assert IsCubeRoot(109, 4 * BASE + 0xc6e00bf3);
    assert IsCubeRoot(113, 4 * BASE + 0xd5a79147);
    assert IsCubeRoot(127, 5 * BASE + 0x06ca6351);
    assert IsCubeRoot(131, 5 * BASE + 0x14292967);
  }

  lemma Roots4()
    ensures AllCubeRoots(P4, K4)
  {
    assert IsCubeRoot(137, 5 * BASE + 0x27b70a85);
    assert IsCubeRoot(139, 5 * BASE + 0x2e1b2138);
    assert IsCubeRoot(149, 5 * BASE + 0x4d2c6dfc);
    assert IsCubeRoot(151, 5 * BASE + 0x53380d13);
    assert IsCubeRoot(157, 5 * BASE + 0x650a7354);
    assert IsCubeRoot(163, 5 * BASE + 0x766a0abb);
    assert IsCubeRoot(167, 5 * BASE + 0x81c2c92e);
    assert IsCubeRoot(173, 5 * BASE + 0x92722c85);
  }

  lemma Roots5()
    ensures AllCubeRoots(P5, K5)
  {
    assert IsCubeRoot(179, 5 * BASE + 0xa2bfe8a1);
    assert IsCubeRoot(181, 5 * BASE + 0xa81a664b);
    assert IsCubeRoot(191, 5 * BASE + 0xc24b8b70);
    assert IsCubeRoot(193, 5 * BASE + 0xc76c51a3);
    assert IsCubeRoot(197, 5 * BASE + 0xd192e819);
    assert IsCubeRoot(199, 5 * BASE + 0xd6990624);
    assert IsCubeRoot(211, 5 * BASE + 0xf40e3585);
    assert IsCubeRoot(223, 6 * BASE + 0x106aa070);
  }

  lemma Roots6()
    ensures AllCubeRoots(P6, K6)
  {
    assert IsCubeRoot(227, 6 * BASE + 0x19a4c116);
    assert IsCubeRoot(229, 6 * BASE + 0x1e376c08);
    assert IsCubeRoot(233, 6 * BASE + 0x2748774c);
    assert IsCubeRoot(239, 6 * BASE + 0x34b0bcb5);
    assert IsCubeRoot(241, 6 * BASE + 0x391c0cb3);
    assert IsCubeRoot(251, 6 * BASE + 0x4ed8aa4a);
    assert IsCubeRoot(257, 6 * BASE + 0x5b9cca4f);
    assert IsCubeRoot(263, 6 * BASE + 0x682e6ff3);
  }

  lemma Roots7()
    ensures AllCubeRoots(P7, K7)
  {
    assert IsCubeRoot(269, 6 * BASE + 0x748f82ee);
    assert IsCubeRoot(271, 6 * BASE + 0x78a5636f);
    assert IsCubeRoot(277, 6 * BASE + 0x84c87814);
    assert IsCubeRoot(281, 6 * BASE + 0x8cc70208);
    assert IsCubeRoot(283, 6 * BASE + 0x90befffa);
    assert IsCubeRoot(293, 6 * BASE + 0xa4506ceb);
    assert IsCubeRoot(307, 6 * BASE + 0xbef9a3f7);
    assert IsCubeRoot(311, 6 * BASE + 0xc67178f2);
  }

  lemma RootsConcat(ps: seq<int>, ks: seq<word>, ps': seq<int>, ks': seq<word>)
    requires AllCubeRoots(ps, ks) && AllCubeRoots(ps', ks')
    ensures AllCubeRoots(ps + ps', ks + ks')
  {
    hide CubeFraction;
  }

  /** Every round constant is the fraction of the cube root of its prime. */
  lemma CubeRoots()
    ensures AllCubeRoots(PRIMES, K)
  {
    hide P0, P1, P2, P3, P4, P5, P6, P7, K0, K1, K2, K3, K4, K5, K6, K7, AllCubeRoots;
    Roots0();
    Roots1();
    Roots2();
    Roots3();
    Roots4();
    Roots5();
    Roots6();
    Roots7();
    RootsConcat(P0, K0, P1, K1);
    RootsConcat(P0 + P1, K0 + K1, P2, K2);
    RootsConcat(P0 + P1 + P2, K0 + K1 + K2, P3, K3);
    RootsConcat(P0 + P1 + P2 + P3, K0 + K1 + K2 + K3, P4, K4);
    RootsConcat(P0 + P1 + P2 + P3 + P4, K0 + K1 + K2 + K3 + K4, P5, K5);
    RootsConcat(P0 + P1 + P2 + P3 + P4 + P5, K0 + K1 + K2 + K3 + K4 + K5, P6, K6);
    RootsConcat(P0 + P1 + P2 + P3 + P4 + P5 + P6, K0 + K1 + K2 + K3 + K4 + K5 + K6, P7, K7);
  }

  lemma SquareRoots()
    ensures |H0| == |P0| == 8 && forall i :: 0 <= i < 8 ==> SquareFraction(PRIMES[i], H0[i])
  {
    assert IsSquareRoot(2, 1 * BASE + 0x6a09e667);
    assert IsSquareRoot(3, 1 * BASE + 0xbb67ae85);
    assert IsSquareRoot(5, 2 * BASE + 0x3c6ef372);
    assert IsSquareRoot(7, 2 * BASE + 0xa54ff53a);
    assert IsSquareRoot(11, 3 * BASE + 0x510e527f);
    assert IsSquareRoot(13, 3 * BASE + 0x9b05688c);
    assert IsSquareRoot(17, 4 * BASE + 0x1f83d9ab);
    assert IsSquareRoot(19, 4 * BASE + 0x5be0cd19);
  }

  // The primes

  /** Not a proper multiple of a prime up to 17. */
  predicate Free(n: int)
  {
    && (n == 2 || n % 2 != 0) && (n == 3 || n % 3 != 0) && (n == 5 || n % 5 != 0) && (n == 7 || n % 7 != 0)
    && (n == 11 || n % 11 != 0) && (n == 13 || n % 13 != 0) && (n == 17 || n % 17 != 0)
  }

  lemma Multiple(p: int, k: int)
    requires p > 0
    ensures (p * k) % p == 0 && (k >= 2 ==> p * k != p)
  {
    DivModUnique(p * k, p, k, 0);
    if k >= 2 {
      MulLe(2, k, p);
    }
  }

  lemma SmallFactor(m: int, e: int)
    requires 2 <= m < 18 && e >= 2
    ensures !Free(m * e)
  {
    var p := if m % 2 == 0 then 2 else if m % 3 == 0 then 3 else if m % 5 == 0 then 5 else m;
    var k := m / p;
    assert k >= 1 && m == p * k;
    assert k * e >= 2;
    assert m * e == p * (k * e);
    Multiple(p, k * e);
  }

  lemma NotFree(d: int, e: int, n: int)
    requires 2 <= d < n < 324 && n == d * e
    ensures !Free(n)
  {
    assert e >= 2;
    if d < 18 {
      SmallFactor(d, e);
    } else {
      assert e < 18;
      SmallFactor(e, d);
    }
  }

  lemma FreeIsPrime(n: int)
    requires 2 <= n < 324
    ensures IsPrime(n) <==> Free(n)
  {
    if IsPrime(n) {
      assert n > 2 ==> !Divides(2, n);
      assert n > 3 ==> !Divides(3, n);
      assert n > 5 ==> !Divides(5, n);
      assert n > 7 ==> !Divides(7, n);
      assert n > 11 ==> !Divides(11, n);
      assert n > 13 ==> !Divides(13, n);
      assert n > 17 ==> !Divides(17, n);
    }
    if Free(n) {
      forall d | 2 <= d < n
        ensures !Divides(d, n)
      {
        if Divides(d, n) {
          NotFree(d, n / d, n);
        }
      }
    }
  }

  /** s holds exactly the primes from lo to hi, in increasing order. */
  ghost predicate Lists(s: seq<int>, lo: int, hi: int)
  {
    && (forall i, j :: 0 <= i < j < |s| ==> s[i] < s[j])
    && (forall n :: n in s <==> lo <= n <= hi && IsPrime(n))
  }

  lemma ListsConcat(a: seq<int>, b: seq<int>, lo: int, mid: int, hi: int)
    requires Lists(a, lo, mid) && Lists(b, mid + 1, hi) && lo <= mid <= hi
    ensures Lists(a + b, lo, hi)
  {
    hide IsPrime;
    forall i, j | 0 <= i < j < |a + b|
      ensures (a + b)[i] < (a + b)[j]
    {
      assert i < |a| ==> a[i] in a;
      assert j >= |a| ==> b[j - |a|] in b;
    }
  }

  predicate NoneFree(a: int, b: int)
    decreases b - a
  {
    a >= b || (!Free(a) && NoneFree(a + 1, b))
  }

  lemma {:induction false} InGap(a: int, b: int, n: int)
    requires NoneFree(a, b) && a <= n < b
    ensures !Free(n)
    decreases b - a
  {
    if a < n {
      InGap(a + 1, b, n);
    }
  }

  predicate FirstFree(a: int, p: int)
  {
    Free(p) && NoneFree(a, p)
  }

  /** One more prime at the end of a list, none between. */
  lemma Next(s: seq<int>, lo: int, a: int, p: int)
    requires Lists(s, lo, a - 1) && 2 <= lo <= a <= p < 324
    requires FirstFree(a, p)
    ensures Lists(s + [p], lo, p)
  {
    hide Free, IsPrime;
    forall n | a <= n <= p
      ensures IsPrime(n) <==> n == p
    {
      FreeIsPrime(n);
      if n < p {
        InGap(a, p, n);
      }
    }
    forall i | 0 <= i < |s|
      ensures s[i] < p
    {
      assert s[i] in s;
    }
  }

  lemma Start(lo: int)
    ensures Lists([], lo, lo - 1)
  {
  }

  lemma Gaps0()
    ensures FirstFree(2, 2) && FirstFree(3, 3) && FirstFree(4, 5) && FirstFree(6, 7)
    ensures FirstFree(8, 11) && FirstFree(12, 13) && FirstFree(14, 17) && FirstFree(18, 19)
  {
  }

  lemma Row0()
    ensures Lists(P0, 2, 19)
  {
    hide IsPrime, Lists, FirstFree;
    Gaps0();
    Start(2);
    Next(P0[..0], 2, 2, 2);
    assert P0[..0] + [2] == P0[..1];
    Next(P0[..1], 2, 3, 3);
    assert P0[..1] + [3] == P0[..2];
    Next(P0[..2], 2, 4, 5);
    assert P0[..2] + [5] == P0[..3];
    Next(P0[..3], 2, 6, 7);
    assert P0[..3] + [7] == P0[..4];
    Next(P0[..4], 2, 8, 11);
    assert P0[..4] + [11] == P0[..5];
    Next(P0[..5], 2, 12, 13);
    assert P0[..5] + [13] == P0[..6];
    Next(P0[..6], 2, 14, 17);
    assert P0[..6] + [17] == P0[..7];
    Next(P0[..7], 2, 18, 19);
    assert P0[..7] + [19] == P0[..8];
    assert P0[..8] == P0;
  }

  lemma Gaps1()
    ensures FirstFree(20, 23) && FirstFree(24, 29) && FirstFree(30, 31) && FirstFree(32, 37)
    ensures FirstFree(38, 41) && FirstFree(42, 43) && FirstFree(44, 47) && FirstFree(48, 53)
  {
  }

  lemma Row1()
    ensures Lists(P1, 20, 53)
  {
    hide IsPrime, Lists, FirstFree;
    Gaps1();
    Start(20);
    Next(P1[..0], 20, 20, 23);
    assert P1[..0] + [23] == P1[..1];
    Next(P1[..1], 20, 24, 29);
    assert P1[..1] + [29] == P1[..2];
    Next(P1[..2], 20, 30, 31);
    assert P1[..2] + [31] == P1[..3];
    Next(P1[..3], 20, 32, 37);
    assert P1[..3] + [37] == P1[..4];
    Next(P1[..4], 20, 38, 41);
    assert P1[..4] + [41] == P1[..5];
    Next(P1[..5], 20, 42, 43);
    assert P1[..5] + [43] == P1[..6];
    Next(P1[..6], 20, 44, 47);
    assert P1[..6] + [47] == P1[..7];
    Next(P1[..7], 20, 48, 53);
    assert P1[..7] + [53] == P1[..8];
    assert P1[..8] == P1;
  }

  lemma Gaps2()
    ensures FirstFree(54, 59) && FirstFree(60, 61) && FirstFree(62, 67) && FirstFree(68, 71)
    ensures FirstFree(72, 73) && FirstFree(74, 79) && FirstFree(80, 83) && FirstFree(84, 89)
  {
  }

  lemma Row2()
    ensures Lists(P2, 54, 89)
  {
    hide IsPrime, Lists, FirstFree;
    Gaps2();
    Start(54);
    Next(P2[..0], 54, 54, 59);
    assert P2[..0] + [59] == P2[..1];
    Next(P2[..1], 54, 60, 61);
    assert P2[..1] + [61] == P2[..2];
    Next(P2[..2], 54, 62, 67);
    assert P2[..2] + [67] == P2[..3];
    Next(P2[..3], 54, 68, 71);
    assert P2[..3] + [71] == P2[..4];
    Next(P2[..4], 54, 72, 73);
    assert P2[..4] + [73] == P2[..5];
    Next(P2[..5], 54, 74, 79);
    assert P2[..5] + [79] == P2[..6];
    Next(P2[..6], 54, 80, 83);
    assert P2[..6] + [83] == P2[..7];
    Next(P2[..7], 54, 84, 89);
    assert P2[..7] + [89] == P2[..8];
    assert P2[..8] == P2;
  }

  lemma Gaps3()
    ensures FirstFree(90, 97) && FirstFree(98, 101) && FirstFree(102, 103) && FirstFree(104, 107)
    ensures FirstFree(108, 109) && FirstFree(110, 113) && FirstFree(114, 127) && FirstFree(128, 131)
  {
  }

  lemma Row3()
    ensures Lists(P3, 90, 131)
  {
    hide IsPrime, Lists, FirstFree;
    Gaps3();
    Start(90);
    Next(P3[..0], 90, 90, 97);
    assert P3[..0] + [97] == P3[..1];
    Next(P3[..1], 90, 98, 101);
    assert P3[..1] + [101] == P3[..2];
    Next(P3[..2], 90, 102, 103);
    assert P3[..2] + [103] == P3[..3];
    Next(P3[..3], 90, 104, 107);
    assert P3[..3] + [107] == P3[..4];
    Next(P3[..4], 90, 108, 109);
    assert P3[..4] + [109] == P3[..5];
    Next(P3[..5], 90, 110, 113);
    assert P3[..5] + [113] == P3[..6];
    Next(P3[..6], 90, 114, 127);
    assert P3[..6] + [127] == P3[..7];
    Next(P3[..7], 90, 128, 131);
    assert P3[..7] + [131] == P3[..8];
    assert P3[..8] == P3;
  }

  lemma Gaps4()
    ensures FirstFree(132, 137) && FirstFree(138, 139) && FirstFree(140, 149) && FirstFree(150, 151)
    ensures FirstFree(152, 157) && FirstFree(158, 163) && FirstFree(164, 167) && FirstFree(168, 173)
  {
  }

  lemma Row4()
    ensures Lists(P4, 132, 173)
  {
    hide IsPrime, Lists, FirstFree;
    Gaps4();
    Start(132);
    Next(P4[..0], 132, 132, 137);
    assert P4[..0] + [137] == P4[..1];
    Next(P4[..1], 132, 138, 139);
    assert P4[..1] + [139] == P4[..2];
    Next(P4[..2], 132, 140, 149);
    assert P4[..2] + [149] == P4[..3];
    Next(P4[..3], 132, 150, 151);
    assert P4[..3] + [151] == P4[..4];
    Next(P4[..4], 132, 152, 157);
    assert P4[..4] + [157] == P4[..5];
    Next(P4[..5], 132, 158, 163);
    assert P4[..5] + [163] == P4[..6];
    Next(P4[..6], 132, 164, 167);
    assert P4[..6] + [167] == P4[..7];
    Next(P4[..7], 132, 168, 173);
    assert P4[..7] + [173] == P4[..8];
    assert P4[..8] == P4;
  }

  lemma Gaps5()
    ensures FirstFree(174, 179) && FirstFree(180, 181) && FirstFree(182, 191) && FirstFree(192, 193)
    ensures FirstFree(194, 197) && FirstFree(198, 199) && FirstFree(200, 211) && FirstFree(212, 223)
  {
  }

  lemma Row5()
    ensures Lists(P5, 174, 223)
  {
    hide IsPrime, Lists, FirstFree;
    Gaps5();
    Start(174);
    Next(P5[..0], 174, 174, 179);
    assert P5[..0] + [179] == P5[..1];
    Next(P5[..1], 174, 180, 181);
    assert P5[..1] + [181] == P5[..2];
    Next(P5[..2], 174, 182, 191);
    assert P5[..2] + [191] == P5[..3];
    Next(P5[..3], 174, 192, 193);
    assert P5[..3] + [193] == P5[..4];
    Next(P5[..4], 174, 194, 197);
    assert P5[..4] + [197] == P5[..5];
    Next(P5[..5], 174, 198, 199);
    assert P5[..5] + [199] == P5[..6];
    Next(P5[..6], 174, 200, 211);
    assert P5[..6] + [211] == P5[..7];
    Next(P5[..7], 174, 212, 223);
    assert P5[..7] + [223] == P5[..8];
    assert P5[..8] == P5;
  }

  lemma Gaps6()
    ensures FirstFree(224, 227) && FirstFree(228, 229) && FirstFree(230, 233) && FirstFree(234, 239)
    ensures FirstFree(240, 241) && FirstFree(242, 251) && FirstFree(252, 257) && FirstFree(258, 263)
  {
  }

  lemma Row6()
    ensures Lists(P6, 224, 263)
  {
    hide IsPrime, Lists, FirstFree;
    Gaps6();
    Start(224);
    Next(P6[..0], 224, 224, 227);
    assert P6[..0] + [227] == P6[..1];
    Next(P6[..1], 224, 228, 229);
    assert P6[..1] + [229] == P6[..2];
    Next(P6[..2], 224, 230, 233);
    assert P6[..2] + [233] == P6[..3];
    Next(P6[..3], 224, 234, 239);
    assert P6[..3] + [239] == P6[..4];
    Next(P6[..4], 224, 240, 241);
    assert P6[..4] + [241] == P6[..5];
    Next(P6[..5], 224, 242, 251);
    assert P6[..5] + [251] == P6[..6];
    Next(P6[..6], 224, 252, 257);
    assert P6[..6] + [257] == P6[..7];
    Next(P6[..7], 224, 258, 263);
    assert P6[..7] + [263] == P6[..8];
    assert P6[..8] == P6;
  }

  lemma Gaps7()
    ensures FirstFree(264, 269) && FirstFree(270, 271) && FirstFree(272, 277) && FirstFree(278, 281)
    ensures FirstFree(282, 283) && FirstFree(284, 293) && FirstFree(294, 307) && FirstFree(308, 311)
  {
  }

  lemma Row7()
    ensures Lists(P7, 264, 311)
  {
    hide IsPrime, Lists, FirstFree;
    Gaps7();
    Start(264);
    Next(P7[..0], 264, 264, 269);
    assert P7[..0] + [269] == P7[..1];
    Next(P7[..1], 264, 270, 271);
    assert P7[..1] + [271] == P7[..2];
    Next(P7[..2], 264, 272, 277);
    assert P7[..2] + [277] == P7[..3];
    Next(P7[..3], 264, 278, 281);
    assert P7[..3] + [281] == P7[..4];
    Next(P7[..4], 264, 282, 283);
    assert P7[..4] + [283] == P7[..5];
    Next(P7[..5], 264, 284, 293);
    assert P7[..5] + [293] == P7[..6];
    Next(P7[..6], 264, 294, 307);
    assert P7[..6] + [307] == P7[..7];
    Next(P7[..7], 264, 308, 311);
    assert P7[..7] + [311] == P7[..8];
    assert P7[..8] == P7;
  }

  /** The table holds the primes up to 311, all 64 of them, in increasing order. */
  lemma PrimesInOrder()
    ensures |PRIMES| == 64 && Lists(PRIMES, 2, 311)
  {
    hide Lists;
    Row0();
    Row1();
    Row2();
    Row3();
    Row4();
    Row5();
    Row6();
    Row7();
    ListsConcat(P0, P1, 2, 19, 53);
    ListsConcat(P0 + P1, P2, 2, 53, 89);
    ListsConcat(P0 + P1 + P2, P3, 2, 89, 131);
    ListsConcat(P0 + P1 + P2 + P3, P4, 2, 131, 173);
    ListsConcat(P0 + P1 + P2 + P3 + P4, P5, 2, 173, 223);
    ListsConcat(P0 + P1 + P2 + P3 + P4 + P5, P6, 2, 223, 263);
    ListsConcat(P0 + P1 + P2 + P3 + P4 + P5 + P6, P7, 2, 263, 311);
  }

  // The functions

  /** On words as numbers the functions are those on words as bits. */
  lemma OnWords(x: word, y: word, z: word)
    ensures Ch(x, y, z) as bv32 == Bits.Ch(x as bv32, y as bv32, z as bv32)
    ensures Maj(x, y, z) as bv32 == Bits.Maj(x as bv32, y as bv32, z as bv32)
    ensures BigSigma0(x) as bv32 == Bits.BigSigma0(x as bv32)
    ensures BigSigma1(x) as bv32 == Bits.BigSigma1(x as bv32)
    ensures SmallSigma0(x) as bv32 == Bits.SmallSigma0(x as bv32)
    ensures SmallSigma1(x) as bv32 == Bits.SmallSigma1(x as bv32)
  {
    hide Bits.Ch, Bits.Maj, Bits.BigSigma0, Bits.BigSigma1, Bits.SmallSigma0, Bits.SmallSigma1;
  }

  // The rounds, told without shifting eight registers

  ghost function A(s: State, block: seq<byte>, i: nat): word
    requires |block| == 64 && i < 68
    decreases i, 1
  {
    if i == 0 then s.d else if i == 1 then s.c else if i == 2 then s.b else if i == 3 then s.a
    else (T1(s, block, i - 4) + BigSigma0(A(s, block, i - 1))
          + Maj(A(s, block, i - 1), A(s, block, i - 2), A(s, block, i - 3))) % BASE
  }

  ghost function E(s: State, block: seq<byte>, i: nat): word
    requires |block| == 64 && i < 68
    decreases i, 1
  {
    if i == 0 then s.h else if i == 1 then s.g else if i == 2 then s.f else if i == 3 then s.e
    else (A(s, block, i - 4) + T1(s, block, i - 4)) % BASE
  }

  ghost function T1(s: State, block: seq<byte>, i: nat): int
    requires |block| == 64 && i < 64
    decreases i + 4, 0
  {
    TableSizes();
    E(s, block, i) + BigSigma1(E(s, block, i + 3)) + Ch(E(s, block, i + 3), E(s, block, i + 2), E(s, block, i + 1))
    + K[i] + W(block, i)
  }

  lemma AddMod(x: int, y: word)
    ensures Add(x % BASE, y) == Add(y, x % BASE) == (x + y) % BASE
  {
    var q := x / BASE;
    assert x == q * BASE + x % BASE;
    CongIntro(x + y, x % BASE + y, BASE, q);
  }

  lemma AddFive(a: word, b: word, c: word, d: word, e: word)
    ensures Add(Add(Add(Add(a, b), c), d), e) == (a + b + c + d + e) % BASE
  {
    AddMod(a + b, c);
    AddMod(a + b + c, d);
    AddMod(a + b + c + d, e);
  }

  lemma AddThree(x: int, b: word, c: word)
    ensures Add(x % BASE, Add(b, c)) == (x + b + c) % BASE
  {
    AddMod(x, Add(b, c));
    AddMod(b + c, x % BASE);
    AddMod(x, 0);
    var q, q' := (b + c) / BASE, x + Add(b, c);
    assert x + b + c == q' + q * BASE;
    CongIntro(x + b + c, q', BASE, q);
  }

  /** After t rounds the eight registers hold the last four terms of two sequences. */
  lemma {:induction false} TwoSequences(s: State, block: seq<byte>, t: nat)
    requires |block| == 64 && t <= 64
    ensures Rounds(s, block, t) == State(A(s, block, t + 3), A(s, block, t + 2), A(s, block, t + 1), A(s, block, t),
                                         E(s, block, t + 3), E(s, block, t + 2), E(s, block, t + 1), E(s, block, t))
    decreases t
  {
    if t > 0 {
      TwoSequences(s, block, t - 1);
      OneRound(s, block, t - 1);
    }
  }

  lemma OneRound(s: State, block: seq<byte>, i: nat)
    requires |block| == 64 && i < 64
    requires Rounds(s, block, i) == State(A(s, block, i + 3), A(s, block, i + 2), A(s, block, i + 1), A(s, block, i),
                                          E(s, block, i + 3), E(s, block, i + 2), E(s, block, i + 1), E(s, block, i))
    ensures Rounds(s, block, i + 1) == State(A(s, block, i + 4), A(s, block, i + 3), A(s, block, i + 2), A(s, block, i + 1),
                                             E(s, block, i + 4), E(s, block, i + 3), E(s, block, i + 2), E(s, block, i + 1))
  {
    hide BigSigma0, BigSigma1, Ch, Maj, W, Add, K, A, E;
    TableSizes();
    var r, t := Rounds(s, block, i), T1(s, block, i);
    AddFive(r.h, BigSigma1(r.e), Ch(r.e, r.f, r.g), K[i], W(block, i));
    AddMod(t, r.d);
    AddThree(t, BigSigma0(r.a), Maj(r.a, r.b, r.c));
    NextTerms(s, block, i);
  }

  lemma NextTerms(s: State, block: seq<byte>, i: nat)
    requires |block| == 64 && i < 64
    ensures var a, b, c := A(s, block, i + 3), A(s, block, i + 2), A(s, block, i + 1);
            A(s, block, i + 4) == (T1(s, block, i) + BigSigma0(a) + Maj(a, b, c)) % BASE
    ensures E(s, block, i + 4) == (A(s, block, i) + T1(s, block, i)) % BASE
  {
    hide BigSigma0, BigSigma1, Ch, Maj, W, K;
  }

  /** One block adds the last four terms of each sequence to the hash so far. */
  lemma CompressionLaw(h: seq<word>, block: seq<byte>, j: nat)
    requires |h| == 8 && |block| == 64 && j < 4
    ensures var r, s := Compress(h, block), State(h[0], h[1], h[2], h[3], h[4], h[5], h[6], h[7]);
            && r[j] == (h[j] + A(s, block, 67 - j)) % BASE
            && r[4 + j] == (h[4 + j] + E(s, block, 67 - j)) % BASE
  {
    hide Rounds, A, E, K;
    TableSizes();
    TwoSequences(ToState(h), block, 64);
  }

  /** The schedule starts with the block, read big-endian, and goes on by a recurrence. */
  lemma ScheduleLaw(block: seq<byte>, t: nat)
    requires |block| == 64
    ensures t < 16 ==> W(block, t) == BeVal(block[4 * t..4 * t + 4])
    ensures t < 48 ==>
              W(block, t + 16) == (W(block, t) + SmallSigma0(W(block, t + 1)) + W(block, t + 9)
                                   + SmallSigma1(W(block, t + 14))) % BASE
  {
    hide SmallSigma0, SmallSigma1, Add, BeWord, BeVal;
    if t < 16 {
      FirstWords(block, t);
    }
    if t < 48 {
      AddFour(SmallSigma1(W(block, t + 14)), W(block, t + 9), SmallSigma0(W(block, t + 1)), W(block, t));
    }
  }

  lemma AddFour(a: word, b: word, c: word, d: word)
    ensures Add(Add(Add(a, b), c), d) == (d + c + b + a) % BASE
  {
    AddMod(a + b, c);
    AddMod(a + b + c, d);
  }

  lemma FirstWords(block: seq<byte>, t: nat)
    requires |block| == 64 && t < 16
    ensures BeWord(block, 4 * t) == BeVal(block[4 * t..4 * t + 4])
  {
    hide BeVal;
    FourByteValue(block[4 * t..4 * t + 4]);
  }

  lemma FourByteValue(s: seq<byte>)
    requires |s| == 4
    ensures BeVal(s) == BeWord(s, 0)
  {
    assert s[..3][..2] == s[..2] && s[..2][..1] == s[..1] && s[..1][..0] == [];
    assert BeVal(s[..1]) == s[0] && BeVal(s[..2]) == 256 * BeVal(s[..1]) + s[1];
    assert BeVal(s[..3]) == 256 * BeVal(s[..2]) + s[2];
  }

  // Padding and result as numbers

  lemma {:induction false} BeValConcat(a: seq<byte>, b: seq<byte>)
    ensures BeVal(a + b) == BeVal(a) * Pow(256, |b|) + BeVal(b)
  {
    if |b| == 0 {
      assert a + b == a;
    } else {
      var c := b[..|b| - 1];
      assert (a + b)[..|a + b| - 1] == a + c;
      BeValConcat(a, c);
      MulPow(BeVal(a), |b|);
    }
  }

  /** The padded message is the message with a one bit after it, moved up past zeros, plus the length. */
  lemma PadLaw(m: seq<byte>, bits: nat)
    requires bits < 0x1_0000_0000_0000_0000
    ensures BeVal(Pad(m, bits)) == (256 * BeVal(m) + 128) * Pow(256, PadZeros(|m|) + 8) + bits
  {
    hide PadZeros, BeVal, Pow, Pad;
    PadValue(m, bits);
    OneBit(m);
    assert BeVal(m + [0x80]) * Pow(256, PadZeros(|m|) + 8) == (256 * BeVal(m) + 128) * Pow(256, PadZeros(|m|) + 8);
  }

  lemma PadValue(m: seq<byte>, bits: nat)
    requires bits < 0x1_0000_0000_0000_0000
    ensures BeVal(Pad(m, bits)) == BeVal(m + [0x80]) * Pow(256, PadZeros(|m|) + 8) + bits
  {
    hide *;
    var tail := PadTail(m, bits);
    BeValConcat(m + [0x80], tail);
  }

  lemma PadTail(m: seq<byte>, bits: nat) returns (tail: seq<byte>)
    requires bits < 0x1_0000_0000_0000_0000
    ensures Pad(m, bits) == (m + [0x80]) + tail
    ensures |tail| == PadZeros(|m|) + 8 && BeVal(tail) == bits
  {
    hide PadZeros, BeVal, Pow, BeBytes;
    var z, n := Zeros(PadZeros(|m|)), BeBytes(bits, 8);
    tail := z + n;
    TwoPow64();
    BeValOfBytes(bits, 8);
    BeValZeros(z);
    BeValSame(z, n);
  }

  lemma OneBit(m: seq<byte>)
    ensures BeVal(m + [0x80]) == 256 * BeVal(m) + 128
  {
    assert (m + [0x80])[..|m|] == m;
  }

  /** The digest spells the eight words of the last hash value, each big-endian. */
  lemma DigestLaw(h: seq<word>, i: nat)
    requires |h| == 8 && i < 8
    ensures BeVal(DigestBytes(h)[4 * i..4 * i + 4]) == h[i]
  {
    hide BeVal, BeBytes, DigestBytes;
    FourDigits();
    BeValOfBytes(h[i], 4);
    DigestPart(h, i);
  }
}
