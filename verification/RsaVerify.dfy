/** RSA public exponentiation and PKCS #1 v1.5 verification. */
module RsaVerify {
  import opened Arith
  import opened Words
  import opened Montgomery

  // Conversion between big-endian bytes and little-endian words

  /** words are the words of the big-endian string s, lowest first. */
  ghost predicate SameNumber(words: seq<word>, s: seq<byte>)
  {
    |s| == 4 * |words|
    && forall i :: 0 <= i < |words| ==> words[i] == BeWord(s, 4 * (|words| - 1 - i))
  }

  lemma {:induction false} SameNumberVal(words: seq<word>, s: seq<byte>)
    requires SameNumber(words, s)
    ensures Val(words) == BeVal(s)
  {
    var k := |words|;
    if k > 0 {
      var s', words' := s[..|s| - 4], words[1..];
      forall i | 0 <= i < |words'| ensures words'[i] == BeWord(s', 4 * (|words'| - 1 - i)) {
        assert words'[i] == words[i + 1];
      }
      SameNumberVal(words', s');
      ValCons(words);
      LastFourBytes(s);
    }
  }

  lemma LastFourBytes(s: seq<byte>)
    requires |s| >= 4
    ensures BeVal(s) == BASE * BeVal(s[..|s| - 4]) + BeWord(s, |s| - 4)
  {
    var n := |s|;
    var s1, s2, s3 := s[..n - 1], s[..n - 2], s[..n - 3];
    assert s1[..n - 2] == s2 && s2[..n - 3] == s3 && s3[..n - 4] == s[..n - 4];
    assert BeVal(s) == 256 * BeVal(s1) + s[n - 1];
    assert BeVal(s1) == 256 * BeVal(s2) + s[n - 2];
    assert BeVal(s2) == 256 * BeVal(s3) + s[n - 3];
    assert BeVal(s3) == 256 * BeVal(s[..n - 4]) + s[n - 4];
  }

  method LoadWords(inout: array<byte>, k: nat) returns (a: array<word>)
    requires inout.Length == 4 * k
    ensures fresh(a) && a.Length == k
    ensures Val(a[..]) == BeVal(inout[..])
  {
    a := new word[k];
    var i := 0;
    while i < k
      invariant 0 <= i <= k
      invariant forall j :: 0 <= j < i ==> a[j] == BeWord(inout[..], 4 * (k - 1 - j))
    {
      var p := 4 * (k - 1 - i);
      a[i] := Pack32(inout[p], inout[p + 1], inout[p + 2], inout[p + 3]);
      i := i + 1;
    }
    SameNumberVal(a[..], inout[..]);
  }

  /** The four bytes of a word, packed again. */
  lemma Repacked(x: word)
    ensures Pack32(x / 0x100_0000, x / 0x1_0000 % 256, x / 0x100 % 256, x % 256) == x
  {
    var y, z, w := Quarters(x);
    assert x == 256 * y + x % 256 && y == 256 * z + y % 256 && z == 256 * w + z % 256;
  }

  method StoreWord(tmp: word, inout: array<byte>, p: nat)
    requires p + 4 <= inout.Length
    modifies inout
    ensures inout[..p] == old(inout[..p])
    ensures BeWord(inout[..p + 4], p) == tmp
  {
    hide Pack32;
    Repacked(tmp);
    inout[p] := tmp / 0x100_0000;
    inout[p + 1] := tmp / 0x1_0000 % 256;
    inout[p + 2] := tmp / 0x100 % 256;
    inout[p + 3] := tmp % 256;
  }

  method StoreWords(a: array<word>, inout: array<byte>)
    requires inout.Length == 4 * a.Length
    modifies inout
    ensures inout[..] == BeBytes(Val(a[..]), inout.Length)
  {
    hide BeBytes, Val;
    var i, p := a.Length, 0;
    ValEmpty(a[i..]);
    while i > 0
      invariant 0 <= i <= a.Length && p == 4 * (a.Length - i)
      invariant BeVal(inout[..p]) == Val(a[i..])
    {
      i := i - 1;
      StoreWord(a[i], inout, p);
      LastFourBytes(inout[..p + 4]);
      assert inout[..p + 4][..p] == inout[..p];
      ValCons(a[i..]);
      assert a[i..][1..] == a[i + 1..];
      p := p + 4;
    }
    assert inout[..p] == inout[..] && a[i..] == a[..];
    BeBytesOfVal(inout[..]);
  }

  // Exponentiation

  /** R has an inverse modulo the modulus: n0inv gives one for BASE. */
  lemma InverseOfR(key: PublicKey) returns (inv: int)
    requires key.WellFormed()
    ensures Cong(key.R() * inv, 1, key.N())
  {
    var t := (key.n0inv * key.N() + 1) / BASE;
    LowWord(key.n);
    InverseOfBase(BASE, key.n0inv, key.n[0], key.N(), t);
    inv := Pow(t, |key.n|);
    InverseOfPower(|key.n|, t, key.N());
  }

  lemma InverseOfBase(base: int, inv: int, n0: int, N: int, t: int)
    requires base > 1 && N > 0
    requires (inv * n0) % base == base - 1 && N % base == n0
    requires t == (inv * N + 1) / base
    ensures Cong(base * t, 1, N)
  {
    var h := N / base;
    assert inv * N == (inv * h) * base + inv * n0 by {
      assert N == h * base + n0;
      Distrib(h * base, n0, inv);
      Assoc(inv, h, base);
    }
    var g := inv * n0 / base;
    var q := inv * h + g + 1;
    assert inv * N + 1 == q * base by {
      assert inv * n0 == g * base + (base - 1);
      Distrib(inv * h + g, 1, base);
      Distrib(inv * h, g, base);
    }
    DivModUnique(inv * N + 1, base, q, 0);
    CongIntro(base * t, 1, N, inv);
  }

  lemma {:induction false} InverseOfPower(k: nat, t: int, N: int)
    requires N > 0
    requires Cong(BASE * t, 1, N)
    ensures Cong(PowB(k) * Pow(t, k), 1, N)
  {
    if k > 0 {
      InverseOfPower(k - 1, t, N);
      CongMul(BASE * t, 1, PowB(k - 1) * Pow(t, k - 1), 1, N);
      Interchange(BASE, t, PowB(k - 1), Pow(t, k - 1));
    }
  }

  lemma Interchange(x: int, y: int, z: int, u: int)
    ensures (x * y) * (z * u) == (x * z) * (y * u)
  {
  }

  /** x stands for s^e in Montgomery form. */
  ghost predicate Represents(key: PublicKey, x: nat, s: nat, e: nat)
    requires key.N() > 0
  {
    Cong(x, Pow(s, e) * key.R(), key.N())
  }

  lemma EnterStep(key: PublicKey, s: nat, x: nat)
    requires key.WellFormed()
    requires Cong(x * key.R(), s * Val(key.rr), key.N())
    ensures Represents(key, x, s, 1)
  {
    var inv := InverseOfR(key);
    assert Pow(s, 1) == s * Pow(s, 0) == s;
    EnterArith(key.R(), key.N(), inv, s, Val(key.rr), x);
  }

  lemma EnterArith(R: int, N: int, inv: int, s: int, rr: int, x: int)
    requires N > 0
    requires Cong(R * inv, 1, N) && Cong(rr, R * R, N)
    requires Cong(x * R, s * rr, N)
    ensures Cong(x, s * R, N)
  {
    hide Cong;
    CongScale(rr, R * R, s, N);
    assert (R * R) * s == (s * R) * R by { Assoc(s, R, R); }
    CongTrans(x * R, s * rr, (s * R) * R, N);
    CongCancel(x, s * R, R, inv, N);
  }

  lemma SquareStep(key: PublicKey, s: nat, e: nat, x: nat, y: nat)
    requires key.WellFormed()
    requires Represents(key, x, s, e)
    requires Cong(y * key.R(), x * x, key.N())
    ensures Represents(key, y, s, 2 * e)
  {
    var inv := InverseOfR(key);
    PowAdd(s, e, e);
    ProductArith(key.R(), key.N(), inv, Pow(s, e), Pow(s, e) * key.R(), x, x, y);
    Assoc(Pow(s, e), Pow(s, e), key.R());
  }

  lemma SquareTwice(key: PublicKey, s: nat, e: nat, x: nat, y: nat, z: nat)
    requires key.WellFormed()
    requires Represents(key, x, s, e)
    requires Cong(y * key.R(), x * x, key.N()) && Cong(z * key.R(), y * y, key.N())
    ensures Represents(key, z, s, 4 * e)
  {
    SquareStep(key, s, e, x, y);
    SquareStep(key, s, 2 * e, y, z);
  }

  /** Multiplying by s itself, not in Montgomery form, also leaves the Montgomery form. */
  lemma LeaveStep(key: PublicKey, s: nat, e: nat, x: nat, y: nat)
    requires key.WellFormed()
    requires Represents(key, x, s, e)
    requires Cong(y * key.R(), x * s, key.N())
    ensures Cong(y, Pow(s, e + 1), key.N())
  {
    var inv := InverseOfR(key);
    ProductArith(key.R(), key.N(), inv, Pow(s, e), s, x, s, y);
    assert Pow(s, e + 1) == s * Pow(s, e);
  }

  lemma ProductArith(R: int, N: int, inv: int, u: int, v: int, x: int, z: int, y: int)
    requires N > 0
    requires Cong(R * inv, 1, N)
    requires Cong(x, u * R, N) && Cong(z, v, N)
    requires Cong(y * R, x * z, N)
    ensures Cong(y, u * v, N)
  {
    hide Cong;
    CongMul(x, u * R, z, v, N);
    assert (u * R) * v == (u * v) * R by { Assoc(u, R, v); Assoc(u, v, R); }
    CongTrans(y * R, x * z, (u * v) * R, N);
    CongCancel(y, u * v, R, inv, N);
  }

  /** One conditional subtraction is enough because the modulus has its top bit set. */
  method ReduceAndStore(key: PublicKey, aaa: array<word>, inout: array<byte>, ghost x: int)
    requires key.Sized() && aaa.Length == key.Size() && inout.Length == 4 * aaa.Length
    modifies aaa, inout
    ensures key.WellFormed() && Cong(Val(old(aaa[..])), x, key.N()) ==>
              inout[..] == BeBytes(x % key.N(), inout.Length)
  {
    ghost var v := Val(aaa[..]);
    ValBound(aaa[..]);
    var ge := MontGe(key, aaa);
    if ge {
      SubM(key, aaa);
    }
    StoreWords(aaa, inout);
    if key.WellFormed() && Cong(v, x, key.N()) {
      FinalReduction(v, x, key.N(), Val(aaa[..]));
    }
  }

  lemma FinalReduction(v: nat, x: int, N: int, r: int)
    requires N > 0 && v < 2 * N && Cong(v, x, N)
    requires r == if v >= N then v - N else v
    ensures r == x % N
  {
    if v >= N {
      DivModUnique(v, N, 1, v - N);
    } else {
      DivModUnique(v, N, 0, v);
    }
  }

  /** In-place public exponentiation with exponent 65537. */
  method ModPowF4(key: PublicKey, inout: array<byte>)
    requires key.Sized() && inout.Length == 4 * key.Size()
    modifies inout
    ensures key.WellFormed() ==>
              inout[..] == BeBytes(Pow(BeVal(old(inout[..])), 65537) % key.N(), inout.Length)
  {
    hide Val, BeVal, BeBytes, Cong, Represents;
    ghost var s := BeVal(inout[..]);
    var a := LoadWords(inout, key.Size());
    var aR := new word[key.Size()];
    var aaR := new word[key.Size()];
    var aaa := aaR;  // re-use location
    MontMul(key, aR, a[..], key.rr);
    ghost var e: nat := 1;
    if key.WellFormed() { EnterStep(key, s, Val(aR[..])); }
    var i := 0;
    while i < 16
      invariant 0 <= i <= 16 && i % 2 == 0
      invariant e == Pow(2, i)
      invariant key.WellFormed() ==> Represents(key, Val(aR[..]), s, e)
      invariant Val(a[..]) == s
    {
      ghost var x := Val(aR[..]);
      MontMul(key, aaR, aR[..], aR[..]);
      ghost var y := Val(aaR[..]);
      MontMul(key, aR, aaR[..], aaR[..]);
      if key.WellFormed() { SquareTwice(key, s, e, x, y, Val(aR[..])); }
      e := 4 * e;
      i := i + 2;
    }
    assert e == 65536 by { TwoTo16(); }
    ghost var x := Val(aR[..]);
    MontMul(key, aaa, aR[..], a[..]);
    if key.WellFormed() { LeaveStep(key, s, e, x, Val(aaa[..])); }
    ReduceAndStore(key, aaa, inout, Pow(s, 65537));
  }

  /** In-place public exponentiation with exponent 3. */
  method ModPow3(key: PublicKey, inout: array<byte>)
    requires key.Sized() && inout.Length == 4 * key.Size()
    modifies inout
    ensures key.WellFormed() ==>
              inout[..] == BeBytes(Pow(BeVal(old(inout[..])), 3) % key.N(), inout.Length)
  {
    hide Val, BeVal, BeBytes, Cong, Represents;
    ghost var s := BeVal(inout[..]);
    var a := LoadWords(inout, key.Size());
    var aR := new word[key.Size()];
    var aaR := new word[key.Size()];
    var aaa := aR;  // re-use location
    MontMul(key, aR, a[..], key.rr);
    ghost var x := Val(aR[..]);
    MontMul(key, aaR, aR[..], aR[..]);
    ghost var y := Val(aaR[..]);
    MontMul(key, aaa, aaR[..], a[..]);
    if key.WellFormed() {
      EnterStep(key, s, x);
      SquareStep(key, s, 1, x, y);
      LeaveStep(key, s, 2, y, Val(aaa[..]));
    }
    ReduceAndStore(key, aaa, inout, Pow(s, 3));
  }

  // Padding and digest checks

  const SUCCESS: int := 0
  const ERROR_DIGEST: int := 120
  const DIGEST_SIZE: nat := 32

  /** Bitwise exclusive or. */
  function Xor(x: nat, y: nat): nat
  {
    if x == 0 && y == 0 then 0 else 2 * Xor(x / 2, y / 2) + (x + y) % 2
  }

  /** Bitwise or. */
  function Or(x: nat, y: nat): nat
  {
    if x == 0 && y == 0 then 0
    else 2 * Or(x / 2, y / 2) + if x % 2 == 1 || y % 2 == 1 then 1 else 0
  }

  lemma {:induction false} XorZero(x: nat, y: nat)
    ensures Xor(x, y) == 0 <==> x == y
  {
    if x != 0 || y != 0 { XorZero(x / 2, y / 2); }
  }

  lemma {:induction false} OrZero(x: nat, y: nat)
    ensures Or(x, y) == 0 <==> x == 0 && y == 0
  {
    if x != 0 || y != 0 { OrZero(x / 2, y / 2); }
  }

  /** Compares without a data-dependent branch; 0 exactly when the strings are equal. */
  method SafeMemcmp(s1: seq<byte>, s2: seq<byte>) returns (r: nat)
    requires |s1| == |s2|
    ensures r == 0 || r == 1
    ensures r == 0 <==> s1 == s2
  {
    hide Xor, Or;
    var result: nat := 0;
    var i := 0;
    while i < |s1|
      invariant 0 <= i <= |s1|
      invariant result == 0 <==> s1[..i] == s2[..i]
    {
      XorZero(s1[i], s2[i]);
      OrZero(result, Xor(s1[i], s2[i]));
      result := Or(result, Xor(s1[i], s2[i]));
      assert s1[..i + 1] == s1[..i] + [s1[i]] && s2[..i + 1] == s2[..i] + [s2[i]];
      i := i + 1;
    }
    assert s1[..i] == s1 && s2[..i] == s2;
    r := if result != 0 then 1 else 0;
  }

  /** The DER prefix of a SHA-256 DigestInfo (section 9.2 of RFC 8017, note 1). */
  const DIGEST_INFO: seq<byte> :=
    [0x30, 0x31, 0x30, 0x0d, 0x06, 0x09, 0x60, 0x86, 0x48, 0x01, 0x65, 0x03, 0x04, 0x02, 0x01, 0x05, 0x00, 0x04, 0x20]

  /** Tag, length and contents, for lengths of one byte (section 8.1 of X.690). */
  function Der(tag: byte, contents: seq<byte>): seq<byte>
    requires |contents| < 128
  {
    [tag, |contents|] + contents
  }

  /** One component of an object identifier: seven bits a byte, all but the last marked (section 8.19 of X.690). */
  function Arc(n: nat): seq<byte>
    requires n < 128 * 128
  {
    if n < 128 then [n] else [128 + n / 128, n % 128]
  }

  /** The identifier 2.16.840.1.101.3.4.2.1, which names SHA-256. */
  function Sha256Oid(): seq<byte>
  {
    Arc(40 * 2 + 16) + Arc(840) + Arc(1) + Arc(101) + Arc(3) + Arc(4) + Arc(2) + Arc(1)
  }

  /** Prefix and digest are a sequence of the algorithm, without parameters, and the digest. */
  lemma PrefixIsDer(digest: seq<byte>)
    requires |digest| == DIGEST_SIZE
    ensures |Sha256Oid()| == 9
    ensures DIGEST_INFO + digest == Der(0x30, Der(0x30, Der(0x06, Sha256Oid()) + Der(0x05, [])) + Der(0x04, digest))
  {
    assert Arc(840) == [0x86, 0x48];
    assert Sha256Oid() == [0x60, 0x86, 0x48, 0x01, 0x65, 0x03, 0x04, 0x02, 0x01];
    var algorithm := Der(0x06, Sha256Oid()) + Der(0x05, []);
    assert algorithm == [0x06, 0x09, 0x60, 0x86, 0x48, 0x01, 0x65, 0x03, 0x04, 0x02, 0x01, 0x05, 0x00];
  }

  const SHA256_TAIL: seq<byte> :=
    [0x00, 0x30, 0x31, 0x30, 0x0d, 0x06, 0x09, 0x60, 0x86, 0x48, 0x01, 0x65, 0x03, 0x04, 0x02, 0x01, 0x05, 0x00, 0x04, 0x20]

  function Ones(n: nat): (s: seq<byte>)
    ensures |s| == n
  {
    seq(n, _ => 0xff)
  }

  /** EMSA-PKCS1-v1_5 encoding of a SHA-256 digest: 00 01 FF..FF 00 DigestInfo digest. */
  function Encoded(digest: seq<byte>, len: nat): (em: seq<byte>)
    requires |digest| == DIGEST_SIZE && 62 <= len
    ensures |em| == len
  {
    [0x00, 0x01] + Ones(len - 54) + [0x00] + DIGEST_INFO + digest
  }

  /** Every mismatch in the padding is seen, although the checks only accumulate bits. */
  method CheckPadding(sig: seq<byte>, pad_size: nat) returns (rv: int)
    requires 22 <= pad_size <= |sig|
    ensures rv == SUCCESS || rv == ERROR_DIGEST
    ensures rv == SUCCESS <==> sig[..pad_size] == [0x00, 0x01] + Ones(pad_size - 22) + SHA256_TAIL
  {
    hide Xor, Or;
    var result: nat := 0;
    XorZero(sig[0], 0x00);
    OrZero(result, Xor(sig[0], 0x00));
    result := Or(result, Xor(sig[0], 0x00));
    XorZero(sig[1], 0x01);
    OrZero(result, Xor(sig[1], 0x01));
    result := Or(result, Xor(sig[1], 0x01));
    var i := 0;
    while i < pad_size - 22
      invariant 0 <= i <= pad_size - 22
      invariant result == 0 <==> sig[..i + 2] == [0x00, 0x01] + Ones(i)
    {
      var k := i + 2;
      XorZero(sig[k], 0xff);
      OrZero(result, Xor(sig[k], 0xff));
      result := Or(result, Xor(sig[k], 0xff));
      assert sig[..k + 1] == sig[..k] + [sig[k]];
      assert [0x00, 0x01] + Ones(i + 1) == ([0x00, 0x01] + Ones(i)) + [0xff];
      i := i + 1;
    }
    var tail := sig[pad_size - 20..pad_size];
    var differs := SafeMemcmp(tail, SHA256_TAIL);
    OrZero(result, differs);
    result := Or(result, differs);
    assert sig[..pad_size] == sig[..i + 2] + tail;
    ghost var head := [0x00, 0x01] + Ones(i);
    assert sig[..i + 2] + tail == head + SHA256_TAIL <==> sig[..i + 2] == head && tail == SHA256_TAIL by {
      SplitEqual(sig[..i + 2], tail, head, SHA256_TAIL);
    }
    rv := if result != 0 then ERROR_DIGEST else SUCCESS;
  }

  lemma SplitEqual(a: seq<byte>, b: seq<byte>, c: seq<byte>, d: seq<byte>)
    requires |a| == |c|
    ensures a + b == c + d <==> a == c && b == d
  {
    if a + b == c + d {
      assert (a + b)[..|a|] == a && (a + b)[|a|..] == b;
      assert (c + d)[..|c|] == c && (c + d)[|c|..] == d;
    }
  }

  // Verification

  /** The k little-endian words from byte offset i on. */
  function LeWords(s: seq<byte>, i: nat, k: nat): (ws: seq<word>)
    requires i + 4 * k <= |s|
    ensures |ws| == k
  {
    seq(k, j requires 0 <= j < k => LeWord(s, i + 4 * j))
  }

  /** The key a packed buffer describes: word count, n0inv, modulus words, rr words. */
  function UnpackKey(data: seq<byte>, k: nat): (key: PublicKey)
    requires |data| >= 8 + 8 * k
    ensures |key.n| == |key.rr| == k
  {
    PublicKey(LeWord(data, 4), LeWords(data, 8, k), LeWords(data, 8 + 4 * k, k))
  }

  /** RSASSA-PKCS1-v1_5 verification (section 8.2.2 of RFC 8017) of a signature of any value below R. */
  ghost predicate Accepts(key: PublicKey, e: nat, sig: seq<byte>, digest: seq<byte>)
    requires key.N() > 0 && |digest| == DIGEST_SIZE && 62 <= |sig|
  {
    BeBytes(Pow(BeVal(sig), e) % key.N(), |sig|) == Encoded(digest, |sig|)
  }

  /** The two checks on the recovered block together decide equality with the whole encoding. */
  method CheckBlock(work: seq<byte>, digest: seq<byte>) returns (rv: int)
    requires 62 <= |work| && |digest| == DIGEST_SIZE
    ensures rv == SUCCESS || rv == ERROR_DIGEST
    ensures rv == SUCCESS <==> work == Encoded(digest, |work|)
  {
    var pad_size := |work| - DIGEST_SIZE;
    rv := CheckPadding(work, pad_size);
    var differs := SafeMemcmp(work[pad_size..], digest);
    if differs != 0 {
      rv := ERROR_DIGEST;
    }
    ghost var head := [0x00, 0x01] + Ones(pad_size - 22) + SHA256_TAIL;
    assert Encoded(digest, |work|) == head + digest by {
      assert SHA256_TAIL == [0x00] + DIGEST_INFO;
    }
    assert work == work[..pad_size] + work[pad_size..];
    SplitEqual(work[..pad_size], work[pad_size..], head, digest);
  }

  method Rsa4096Verify(key_data: seq<byte>, sig: seq<byte>, digest: seq<byte>) returns (rv: int)
    requires |key_data| >= 1032 && |sig| == 512 && |digest| == DIGEST_SIZE
    ensures rv == SUCCESS || rv == ERROR_DIGEST
    ensures LeWord(key_data, 0) != 128 ==> rv == ERROR_DIGEST
    ensures LeWord(key_data, 0) == 128 && UnpackKey(key_data, 128).WellFormed() ==>
              (rv == SUCCESS <==> Accepts(UnpackKey(key_data, 128), 65537, sig, digest))
  {
    hide Pow, BeVal, BeBytes, Val, PublicKey.WellFormed, Encoded;
    if LeWord(key_data, 0) != 128 {
      return ERROR_DIGEST;
    }
    var key := UnpackKey(key_data, 128);
    var work := new byte[512](i requires 0 <= i < 512 => sig[i]);
    assert work[..] == sig;
    ModPowF4(key, work);
    rv := CheckBlock(work[..], digest);
  }

  method Rsa3072bVerify(key_data: seq<byte>, sig: seq<byte>, digest: seq<byte>) returns (rv: int)
    requires |key_data| >= 776 && |sig| == 384 && |digest| == DIGEST_SIZE
    ensures rv == SUCCESS || rv == ERROR_DIGEST
    ensures LeWord(key_data, 0) != 96 ==> rv == ERROR_DIGEST
    ensures LeWord(key_data, 0) == 96 && UnpackKey(key_data, 96).WellFormed() ==>
              (rv == SUCCESS <==> Accepts(UnpackKey(key_data, 96), 3, sig, digest))
  {
    hide Pow, BeVal, BeBytes, Val, PublicKey.WellFormed, Encoded;
    if LeWord(key_data, 0) != 96 {
      return ERROR_DIGEST;
    }
    var key := UnpackKey(key_data, 96);
    var work := new byte[384](i requires 0 <= i < 384 => sig[i]);
    assert work[..] == sig;
    ModPow3(key, work);
    rv := CheckBlock(work[..], digest);
  }

  /** A signature is accepted exactly when it is an e-th root of the encoded digest modulo the modulus. */
  lemma AcceptsIsRoot(key: PublicKey, e: nat, sig: seq<byte>, digest: seq<byte>)
    requires key.N() > 0 && |digest| == DIGEST_SIZE && 62 <= |sig| == 4 * |key.n|
    ensures Accepts(key, e, sig, digest) <==> Pow(BeVal(sig), e) % key.N() == BeVal(Encoded(digest, |sig|))
  {
    var x, em := Pow(BeVal(sig), e) % key.N(), Encoded(digest, |sig|);
    ValBound(key.n);
    hide Val, BeVal, BeBytes, Encoded;
    PowerOf256(|key.n|);
    BeValOfBytes(x, |sig|);
    BeBytesOfVal(em);
  }

  /** No signature is good for two digests. */
  lemma OneDigestPerSignature(key: PublicKey, e: nat, sig: seq<byte>, d: seq<byte>, d': seq<byte>)
    requires key.N() > 0 && |d| == |d'| == DIGEST_SIZE && 62 <= |sig|
    requires Accepts(key, e, sig, d) && Accepts(key, e, sig, d')
    ensures d == d'
  {
    var n := |sig| - DIGEST_SIZE;
    assert d == Encoded(d, |sig|)[n..] && d' == Encoded(d', |sig|)[n..];
  }
}
