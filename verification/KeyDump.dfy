/** Packing an RSA modulus into the key buffer that the verifier unpacks. */
module KeyDump {
  import opened Arith
  import opened Words
  import opened Montgomery
  import opened RsaVerify

  /** Number of significant bits, as BN_num_bits counts them. */
  function NumBits(x: nat): nat
  {
    if x == 0 then 0 else 1 + NumBits(x / 2)
  }

  lemma {:induction false} NumBitsBounds(x: nat)
    ensures x < Pow(2, NumBits(x))
    ensures x > 0 ==> Pow(2, NumBits(x) - 1) <= x
  {
    if x > 0 {
      NumBitsBounds(x / 2);
      if x / 2 > 0 {
        assert Pow(2, NumBits(x) - 1) == 2 * Pow(2, NumBits(x / 2) - 1);
      }
    }
  }

  lemma {:induction false} PowerOfTwo32(k: nat)
    ensures Pow(2, 32 * k) == PowB(k)
  {
    if k > 0 {
      PowerOfTwo32(k - 1);
      PowAdd(2, 32, 32 * (k - 1));
      TwoTo32();
    }
  }

  lemma {:induction false} Pow2Monotone(a: nat, b: nat)
    requires a <= b
    ensures Pow(2, a) <= Pow(2, b)
    decreases b
  {
    if a < b {
      Pow2Monotone(a, b - 1);
      PowPositive(2, b - 1);
    }
  }

  /** The inverse of an odd number modulo 2^j, found one bit at a time; 0 for an even number. */
  function ModInverse(x: nat, j: nat): nat
    decreases j
  {
    if j == 0 || x % 2 == 0 then 0
    else
      var r, m := ModInverse(x, j - 1), Pow(2, j - 1);
      PowPositive(2, j - 1);
      if (r * x) % (2 * m) == 1 then r else r + m
  }

  lemma {:induction false} ModInverseCorrect(x: nat, j: nat)
    requires x % 2 == 1 && j > 0
    ensures ModInverse(x, j) < Pow(2, j)
    ensures Pow(2, j) > 0 && (ModInverse(x, j) * x) % Pow(2, j) == 1
  {
    var r, m := ModInverse(x, j - 1), Pow(2, j - 1);
    PowPositive(2, j - 1);
    if j > 1 {
      ModInverseCorrect(x, j - 1);
      DivModUnique(1, m, 0, 1) by { assert m == 2 * Pow(2, j - 2); PowPositive(2, j - 2); }
    } else {
      assert r == 0 && m == 1;
    }
    LiftInverse(x, r, m);
    assert Pow(2, j) == 2 * m;
  }

  /** An inverse modulo m extends to one modulo 2 * m, possibly after adding m. */
  lemma LiftInverse(x: nat, r: nat, m: nat)
    requires m > 0 && x % 2 == 1
    requires (r * x) % m == 1 % m
    ensures (r * x) % (2 * m) == 1 || ((r + m) * x) % (2 * m) == 1
  {
    var q := CongElim(r * x, 1, m);
    var h := q / 2;
    if q % 2 == 0 {
      assert q * m == h * (2 * m) by { Assoc(h, 2, m); }
      CongIntro(r * x, 1, 2 * m, h);
    } else {
      var g := x / 2;
      assert (r + m) * x == r * x + m * x by { Distrib(r, m, x); }
      assert m * x == g * (2 * m) + m by { assert x == 2 * g + 1; Distrib(2 * g, 1, m); Assoc(g, 2, m); }
      assert q * m == h * (2 * m) + m by { assert q == 2 * h + 1; Distrib(2 * h, 1, m); Assoc(h, 2, m); }
      assert (h + g + 1) * (2 * m) == h * (2 * m) + g * (2 * m) + 2 * m by {
        Distrib(h + g, 1, 2 * m);
        Distrib(h, g, 2 * m);
      }
      CongIntro((r + m) * x, 1, 2 * m, h + g + 1);
    }
    DivModUnique(1, 2 * m, 0, 1);
  }

  /** -1 / N[0] modulo 2^32, as the tool computes it. */
  function N0Inv(N: nat): word
  {
    (BASE - ModInverse(N, 32)) % BASE
  }

  function WordsOf(x: nat, k: nat): (s: seq<word>)
    ensures |s| == k
    decreases k
  {
    if k == 0 then [] else [x % BASE] + WordsOf(x / BASE, k - 1)
  }

  lemma {:induction false} WordsOfVal(x: nat, k: nat)
    ensures Val(WordsOf(x, k)) == x % PowB(k)
  {
    if k == 0 {
      assert x % 1 == 0;
    } else {
      var s := WordsOf(x, k);
      WordsOfVal(x / BASE, k - 1);
      assert s[1..] == WordsOf(x / BASE, k - 1);
      ValCons(s);
      SplitMod(x, BASE, PowB(k - 1));
    }
  }

  lemma SplitMod(x: nat, b: int, p: int)
    requires b > 0 && p > 0
    ensures b * p > 0
    ensures x % (b * p) == x % b + b * ((x / b) % p)
  {
    MulPositive(b, p);
    var y := x / b;
    var q, r := y / p, x % b + b * (y % p);
    assert x == q * (b * p) + r by {
      assert x == b * y + x % b && y == q * p + y % p;
      Distrib(q * p, y % p, b);
      Assoc(b, q, p);
      Assoc(q, b, p);
    }
    assert r < b * p by {
      MulLe(y % p, p - 1, b);
      Distrib(p, -1, b);
    }
    MulLe(0, y % p, b);
    DivModUnique(x, b * p, q, r);
  }

  /** All words of the packed key: count, n0inv, modulus, R^2 modulo N. */
  function KeyWords(N: nat): (s: seq<word>)
    requires N > 0 && NumBits(N) < 0x8000_0000
    ensures |s| == 2 + 2 * (NumBits(N) / 32)
  {
    var k := NumBits(N) / 32;
    var R := Pow(2, NumBits(N));
    PowPositive(2, NumBits(N));
    [k, N0Inv(N)] + WordsOf(N, k) + WordsOf((R * R) % N, k)
  }

  function WordBytes(s: seq<word>): (r: seq<byte>)
    ensures |r| == 4 * |s|
  {
    if |s| == 0 then [] else LeBytes(s[0], 4) + WordBytes(s[1..])
  }

  lemma {:induction false} WordBytesAt(s: seq<word>, i: nat)
    requires i < |s|
    ensures LeWord(WordBytes(s), 4 * i) == s[i]
  {
    hide LeBytes, Pack32, LeWord;
    var first, rest := LeBytes(s[0], 4), WordBytes(s[1..]);
    assert WordBytes(s) == first + rest;
    if i == 0 {
      FirstWord(first, rest);
      PackedBack(s[0]);
    } else {
      WordBytesAt(s[1..], i - 1);
      LaterWord(first, rest, 4 * (i - 1));
    }
  }

  lemma FirstWord(first: seq<byte>, rest: seq<byte>)
    requires |first| == 4
    ensures LeWord(first + rest, 0) == Pack32(first[3], first[2], first[1], first[0])
  {
  }

  lemma LaterWord(first: seq<byte>, rest: seq<byte>, at: nat)
    requires |first| == 4 && at + 4 <= |rest|
    ensures LeWord(first + rest, at + 4) == LeWord(rest, at)
  {
  }

  function KeyBytes(N: nat): (s: seq<byte>)
    requires N > 0 && NumBits(N) < 0x8000_0000
    ensures |s| == 8 + 8 * (NumBits(N) / 32)
  {
    WordBytes(KeyWords(N))
  }

  lemma {:induction false} WordBytesAppend(s: seq<word>, t: seq<word>)
    ensures WordBytes(s + t) == WordBytes(s) + WordBytes(t)
  {
    if |s| == 0 {
      assert s + t == t;
    } else {
      assert (s + t)[1..] == s[1..] + t;
      WordBytesAppend(s[1..], t);
    }
  }

  /** Writes the low k words of x, shifting x right by one word each time. */
  method EmitWords(x0: nat, k: nat, out0: seq<byte>) returns (out: seq<byte>)
    ensures out == out0 + WordBytes(WordsOf(x0, k))
  {
    out := out0;
    var x: nat := x0;
    var i := 0;
    assert out0 + WordBytes(WordsOf(x0, k)) == out + WordBytes(WordsOf(x, k - i));
    while i < k
      invariant 0 <= i <= k
      invariant out0 + WordBytes(WordsOf(x0, k)) == out + WordBytes(WordsOf(x, k - i))
    {
      ghost var ws := WordsOf(x, k - i);
      assert ws[1..] == WordsOf(x / BASE, k - i - 1);
      out := out + LeBytes(x % BASE, 4);
      x := x / BASE;
      i := i + 1;
    }
  }

  /** Pre-processes a modulus and writes it out. */
  method Output(N: nat) returns (out: seq<byte>)
    requires N > 0 && NumBits(N) < 0x8000_0000
    ensures out == KeyBytes(N)
  {
    hide ModInverse, WordsOf, NumBits;
    var nwords: word := NumBits(N) / 32;
    out := LeBytes(nwords, 4);
    var n0inv := N0Inv(N);
    out := out + LeBytes(n0inv, 4);
    ghost var head := [nwords, n0inv];
    assert out == WordBytes(head) by {
      assert head[1..] == [n0inv] && head[1..][1..] == [];
      assert WordBytes(head[1..]) == LeBytes(n0inv, 4) + [];
    }
    PowPositive(2, NumBits(N));
    var R := Pow(2, NumBits(N));
    var RR := (R * R) % N;
    WordBytesAppend(head, WordsOf(N, nwords));
    WordBytesAppend(head + WordsOf(N, nwords), WordsOf(RR, nwords));
    out := EmitWords(N, nwords, out);
    out := EmitWords(RR, nwords, out);
  }

  // What the verifier reads back

  lemma UnpackPacked(N: nat)
    requires N > 0 && NumBits(N) < 0x8000_0000
    ensures var k := NumBits(N) / 32; var R := Pow(2, NumBits(N));
            LeWord(KeyBytes(N), 0) == k
            && UnpackKey(KeyBytes(N), k) == PublicKey(N0Inv(N), WordsOf(N, k), WordsOf((R * R) % N, k))
  {
    hide ModInverse, WordsOf, NumBits, WordBytes;
    var k, ws := NumBits(N) / 32, KeyWords(N);
    WordBytesAt(ws, 0);
    WordBytesAt(ws, 1);
    var s := KeyBytes(N);
    forall j | 0 <= j < k
      ensures LeWords(s, 8, k)[j] == WordsOf(N, k)[j]
    {
      WordBytesAt(ws, 2 + j);
      assert 8 + 4 * j == 4 * (2 + j);
    }
    var RR := KeyRR(N);
    forall j | 0 <= j < k
      ensures LeWords(s, 8 + 4 * k, k)[j] == WordsOf(RR, k)[j]
    {
      WordBytesAt(ws, 2 + k + j);
      assert 8 + 4 * k + 4 * j == 4 * (2 + k + j);
    }
  }

  function KeyRR(N: nat): nat
    requires N > 0
  {
    PowPositive(2, NumBits(N));
    (Pow(2, NumBits(N)) * Pow(2, NumBits(N))) % N
  }

  /**
   * The packed key is one the verifier is correct for, with the modulus it was made from, exactly
   * when that modulus is odd and fills its top word.
   */
  lemma PackedKeyWellFormed(N: nat)
    requires N > 0 && NumBits(N) < 0x8000_0000
    ensures var key := UnpackKey(KeyBytes(N), NumBits(N) / 32);
            key.WellFormed() && key.N() == N <==> N % 2 == 1 && NumBits(N) % 32 == 0
  {
    var k := NumBits(N) / 32;
    UnpackPacked(N);
    hide KeyBytes, UnpackKey, NumBits, WordsOf, PowB, Val, N0Inv, Pow;
    var key := UnpackKey(KeyBytes(N), k);
    WordsOfVal(N, k);
    FillsTopWord(N);
    if N % 2 == 1 && NumBits(N) % 32 == 0 {
      PackedInverse(N, k);
      WordsOfVal(KeyRR(N), k);
      SmallMod(KeyRR(N), PowB(k));
      CongMod(Pow(2, NumBits(N)) * Pow(2, NumBits(N)), N);
    }
    if key.WellFormed() && key.N() == N {
      OddModulus(N, k, key.n0inv);
    }
  }

  /** Packing a modulus and verifying with the packed key is textbook verification with that modulus. */
  lemma PackedKeyVerifies(N: nat, e: nat, sig: seq<byte>, digest: seq<byte>)
    requires N > 0 && N % 2 == 1 && NumBits(N) % 32 == 0 && NumBits(N) < 0x8000_0000
    requires |digest| == DIGEST_SIZE && 62 <= |sig| && 8 * |sig| == NumBits(N)
    ensures var key := UnpackKey(KeyBytes(N), |sig| / 4);
            && key.WellFormed() && key.N() == N
            && (Accepts(key, e, sig, digest) <==> Pow(BeVal(sig), e) % N == BeVal(Encoded(digest, |sig|)))
  {
    hide KeyBytes, UnpackKey, NumBits, PublicKey.WellFormed, PublicKey.N, Pow, BeVal, Encoded, Accepts, Val;
    var k := NumBits(N) / 32;
    assert |sig| == 4 * k;
    PackedKeyWellFormed(N);
    AcceptsIsRoot(UnpackKey(KeyBytes(N), k), e, sig, digest);
  }

  /** A signature made with an exponent that e undoes on the encoded digest is accepted under the packed key. */
  lemma SignedIsAccepted(N: nat, d: nat, e: nat, digest: seq<byte>, len: nat)
    requires N > 0 && N % 2 == 1 && NumBits(N) % 32 == 0 && NumBits(N) < 0x8000_0000
    requires |digest| == DIGEST_SIZE && 62 <= len && 8 * len == NumBits(N)
    requires var m := BeVal(Encoded(digest, len)); Pow(Pow(m, d), e) % N == m
    ensures var m := BeVal(Encoded(digest, len));
            var key := UnpackKey(KeyBytes(N), len / 4);
            key.N() == N && Accepts(key, e, BeBytes(Pow(m, d) % N, len), digest)
  {
    hide KeyBytes, UnpackKey, NumBits, PublicKey.WellFormed, PublicKey.N;
    hide Pow, PowB, BeVal, BeBytes, Encoded, Accepts, Cong, Val;
    var m := BeVal(Encoded(digest, len));
    var x := Pow(m, d) % N;
    var sig := BeBytes(x, len);
    var k := NumBits(N) / 32;
    assert len == 4 * k;
    assert x < Pow(256, len) by {
      FillsTopWord(N);
      PowerOf256(k);
    }
    BeValOfBytes(x, len);
    CongMod(Pow(m, d), N);
    CongPow(x, Pow(m, d), e, N);
    CongSameRev(Pow(x, e), Pow(Pow(m, d), e), N);
    PackedKeyVerifies(N, e, sig, digest);
  }

  lemma SmallMod(x: nat, m: int)
    ensures x < m ==> x % m == x
  {
    if x < m { DivModUnique(x, m, 0, x); }
  }

  lemma BelowModulus(x: nat, m: int)
    requires 0 < m <= x
    ensures x % m != x
  {
  }

  /** N is what its own k low words hold exactly when its bit length is a multiple of 32. */
  lemma FillsTopWord(N: nat)
    requires N > 0
    ensures var k := NumBits(N) / 32;
            && (N % PowB(k) == N <==> NumBits(N) % 32 == 0)
            && (NumBits(N) % 32 == 0 ==> k > 0 && N < PowB(k) <= 2 * N && PowB(k) == Pow(2, NumBits(N)))
  {
    hide Pow, PowB, NumBits;
    var k, bits := NumBits(N) / 32, NumBits(N);
    TopBit(N);
    PowerOfTwo32(k);
    SmallMod(N, PowB(k));
    if bits % 32 == 0 {
      assert bits == 32 * k;
    } else {
      Pow2Monotone(32 * k, bits - 1);
      BelowModulus(N, PowB(k));
    }
  }

  lemma TopBit(N: nat)
    requires N > 0
    ensures NumBits(N) > 0 && Pow(2, NumBits(N) - 1) <= N < Pow(2, NumBits(N))
    ensures Pow(2, NumBits(N)) == 2 * Pow(2, NumBits(N) - 1)
  {
    NumBitsBounds(N);
  }

  lemma PackedInverse(N: nat, k: nat)
    requires N % 2 == 1 && k > 0
    ensures (N0Inv(N) * WordsOf(N, k)[0]) % BASE == BASE - 1
  {
    hide ModInverse, Pow;
    TwoTo32();
    ModInverseCorrect(N, 32);
    NegatedInverse(BASE, ModInverse(N, 32), N);
  }

  lemma NegatedInverse(base: int, x: int, N: int)
    requires base > 1 && 0 <= x < base && (x * N) % base == 1
    ensures ((base - x) % base * (N % base)) % base == base - 1
  {
    hide Cong;
    assert Cong(x * N, 1, base) by { DivModUnique(1, base, 0, 1); CongSame(x * N, 1, base); }
    CongScale(x * N, 1, -1, base);
    CongIntro((base - x) * N, -(x * N), base, N) by { Distrib(base, -x, N); }
    CongIntro(-1, base - 1, base, -1);
    CongTrans((base - x) * N, (x * N) * -1, -1, base);
    CongTrans((base - x) * N, -1, base - 1, base);
    CongMod(base - x, base);
    CongMod(N, base);
    CongMul((base - x) % base, base - x, N % base, N, base);
    CongTrans((base - x) % base * (N % base), (base - x) * N, base - 1, base);
    CongSameRev((base - x) % base * (N % base), base - 1, base);
    DivModUnique(base - 1, base, 0, base - 1);
  }

  lemma CongSame(x: int, y: int, n: int)
    requires n > 0 && x % n == y % n
    ensures Cong(x, y, n)
  {
  }

  lemma CongSameRev(x: int, y: int, n: int)
    requires n > 0 && Cong(x, y, n)
    ensures x % n == y % n
  {
  }

  lemma OddModulus(N: nat, k: nat, inv: word)
    requires k > 0
    requires (inv * WordsOf(N, k)[0]) % BASE == BASE - 1
    ensures N % 2 == 1
  {
    assert WordsOf(N, k)[0] == N % BASE;
    hide WordsOf;
    if N % 2 == 0 {
      var h := EvenLow(N);
      EvenProduct(inv, h);
    }
  }

  /** The low word of an even number is even. */
  lemma EvenLow(N: nat) returns (h: int)
    requires N % 2 == 0
    ensures N % BASE == h * 2
  {
    h := N / 2 - 0x8000_0000 * (N / BASE);
  }

  lemma EvenProduct(inv: int, h: int)
    ensures (inv * (h * 2)) % BASE != BASE - 1
  {
    var p := inv * h;
    assert inv * (h * 2) == 2 * p;
  }
}
