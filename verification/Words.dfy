/** Bytes, 32-bit words, and the numbers that sequences of them stand for. */
module Words {
  import opened Arith

  const BASE: int := 0x1_0000_0000

  type byte = x: int | 0 <= x < 256
  type word = x: int | 0 <= x < 0x1_0000_0000

  /** BASE to the power i. */
  function PowB(i: nat): (r: int)
    ensures r > 0
  {
    if i == 0 then 1 else 0x1_0000_0000 * PowB(i - 1)
  }

  /** A digit x in column i. Proofs use its laws below rather than the product itself. */
  function Place(x: int, i: nat): int
  {
    x * PowB(i)
  }

  lemma PlaceAdd(x: int, y: int, i: nat)
    ensures Place(x + y, i) == Place(x, i) + Place(y, i)
  {
    Distrib(x, y, PowB(i));
  }

  lemma PlaceCarry(low: int, hi: int, i: nat)
    ensures Place(low + BASE * hi, i) == Place(low, i) + Place(hi, i + 1)
  {
    PlaceAdd(low, BASE * hi, i);
    assert (BASE * hi) * PowB(i) == hi * (BASE * PowB(i)) by { Assoc(hi, BASE, PowB(i)); }
  }

  lemma PlaceMono(x: int, y: int, i: nat)
    requires x <= y
    ensures Place(x, i) <= Place(y, i)
  {
    MulLe(x, y, PowB(i));
  }

  lemma PlaceOne(i: nat)
    ensures Place(0, i) == 0 && Place(1, i) == PowB(i) && Place(-1, i) == -PowB(i)
    ensures PowB(i + 1) == BASE * PowB(i)
  {
  }

  /** Value of a little-endian word array. */
  function Val(s: seq<word>): (v: nat)
  {
    if |s| == 0 then 0
    else
      PlaceMono(0, s[|s| - 1], |s| - 1);
      Val(s[..|s| - 1]) + Place(s[|s| - 1], |s| - 1)
  }

  lemma ValEmpty(s: seq<word>)
    requires |s| == 0
    ensures Val(s) == 0
  {
  }

  lemma {:induction false} ValZero(s: seq<word>)
    requires forall j :: 0 <= j < |s| ==> s[j] == 0
    ensures Val(s) == 0
  {
    if |s| > 0 {
      ValZero(s[..|s| - 1]);
      PlaceOne(|s| - 1);
    }
  }

  lemma ValSnoc(s: seq<word>, x: word)
    ensures Val(s + [x]) == Val(s) + Place(x, |s|)
  {
    assert (s + [x])[..|s|] == s;
  }

  lemma ValPrefix(s: seq<word>, i: nat)
    requires i < |s|
    ensures Val(s[..i + 1]) == Val(s[..i]) + Place(s[i], i)
  {
    assert s[..i + 1] == s[..i] + [s[i]];
    ValSnoc(s[..i], s[i]);
  }

  lemma {:induction false} ValBound(s: seq<word>)
    ensures Val(s) < PowB(|s|)
  {
    if |s| > 0 {
      var i := |s| - 1;
      ValBound(s[..i]);
      hide Place;
      PlaceMono(s[i], BASE - 1, i);
      PlaceAdd(BASE - 1, 1, i);
      PlaceCarry(0, 1, i);
      PlaceOne(i);
      PlaceOne(i + 1);
    }
  }

  /** The value is its lowest word modulo BASE. */
  lemma {:induction false} LowWord(s: seq<word>)
    requires |s| > 0
    ensures Val(s) % BASE == s[0]
  {
    if |s| == 1 {
      assert s[..0] == [];
      assert PowB(0) == 1;
    } else {
      var i := |s| - 1;
      LowWord(s[..i]);
      var q := Place(s[i], i - 1);
      assert Place(s[i], i) == q * BASE by { PlaceCarry(0, s[i], i - 1); PlaceOne(i - 1); Assoc(BASE, s[i], PowB(i - 1)); }
      CongIntro(Val(s), Val(s[..i]), BASE, q);
    }
  }

  /** The same value read from the lowest word up. */
  lemma {:induction false} ValCons(s: seq<word>)
    requires |s| > 0
    ensures Val(s) == s[0] + BASE * Val(s[1..])
  {
    var i := |s| - 1;
    if i == 0 {
      assert s[..0] == [] && s[1..] == [];
      assert PowB(0) == 1;
    } else {
      var t := s[1..];
      assert t[..i - 1] == s[..i][1..];
      ValCons(s[..i]);
      hide Place, PowB;
      PlaceBase(s[i], i - 1);
    }
  }

  lemma PlaceBase(x: int, i: nat)
    ensures BASE * Place(x, i) == Place(x, i + 1)
  {
    Assoc(BASE, x, PowB(i));
    Assoc(x, BASE, PowB(i));
  }

  // Byte strings

  /** Four bytes packed into a word, most significant first. */
  function Pack32(b3: byte, b2: byte, b1: byte, b0: byte): word
  {
    var x3: int, x2: int, x1: int, x0: int := b3, b2, b1, b0;
    0x100_0000 * x3 + 0x1_0000 * x2 + 0x100 * x1 + x0
  }

  /** The big-endian word at byte offset i. */
  function BeWord(s: seq<byte>, i: nat): word
    requires i + 4 <= |s|
  {
    Pack32(s[i], s[i + 1], s[i + 2], s[i + 3])
  }

  /** The little-endian word at byte offset i. */
  function LeWord(s: seq<byte>, i: nat): word
    requires i + 4 <= |s|
  {
    Pack32(s[i + 3], s[i + 2], s[i + 1], s[i])
  }

  /** The little-endian 64-bit number at byte offset i. */
  function LeLong(s: seq<byte>, i: nat): nat
    requires i + 8 <= |s|
  {
    LeWord(s, i) + BASE * LeWord(s, i + 4)
  }

  function Zeros(n: nat): (s: seq<byte>)
    ensures |s| == n
    ensures forall i :: 0 <= i < n ==> s[i] == 0
  {
    seq(n, _ => 0)
  }

  /** Value of a big-endian byte string (OS2IP of RFC 8017, section 4.2). */
  function BeVal(s: seq<byte>): (v: nat)
  {
    if |s| == 0 then 0 else 256 * BeVal(s[..|s| - 1]) + s[|s| - 1]
  }

  /** The big-endian string of the given length (I2OSP of RFC 8017, section 4.1), high digits lost. */
  function BeBytes(x: nat, len: nat): (s: seq<byte>)
    ensures |s| == len
    decreases len
  {
    if len == 0 then [] else BeBytes(x / 256, len - 1) + [x % 256]
  }

  lemma {:induction false} BeBytesOfVal(s: seq<byte>)
    ensures BeBytes(BeVal(s), |s|) == s
  {
    if |s| > 0 {
      var i := |s| - 1;
      BeBytesOfVal(s[..i]);
      assert BeVal(s) / 256 == BeVal(s[..i]) && BeVal(s) % 256 == s[i];
    }
  }

  function LeBytes(x: nat, len: nat): (s: seq<byte>)
    ensures |s| == len
    decreases len
  {
    if len == 0 then [] else [x % 256] + LeBytes(x / 256, len - 1)
  }

  lemma PackedBack(x: word)
    ensures var b := LeBytes(x, 4); Pack32(b[3], b[2], b[1], b[0]) == x
  {
    LeBytesFour(x);
  }

  /** A word divided by 256 one, two and three times. */
  lemma Quarters(x: word) returns (y: nat, z: nat, w: byte)
    ensures y == x / 256 == x / 0x100 && z == y / 256 == x / 0x1_0000 && w == z / 256 == x / 0x100_0000
  {
    y, z := x / 256, x / 256 / 256;
    w := z / 256;
  }

  lemma LeBytesFour(x: word)
    ensures LeBytes(x, 4) == [x % 256, x / 0x100 % 256, x / 0x1_0000 % 256, x / 0x100_0000]
  {
    var y, z, w := Quarters(x);
    assert LeBytes(x, 4) == [x % 256] + LeBytes(y, 3);
    assert LeBytes(y, 3) == [y % 256] + LeBytes(z, 2);
    assert LeBytes(z, 2) == [z % 256] + LeBytes(w, 1);
    assert LeBytes(w, 1) == [w % 256] + LeBytes(w / 256, 0);
  }

  lemma {:induction false} BeValOfBytes(x: nat, len: nat)
    requires x < Pow(256, len)
    ensures BeVal(BeBytes(x, len)) == x
  {
    if len > 0 {
      BeValOfBytes(x / 256, len - 1);
      assert BeBytes(x, len)[..len - 1] == BeBytes(x / 256, len - 1);
    }
  }

  lemma {:induction false} PowerOf256(k: nat)
    ensures Pow(256, 4 * k) == PowB(k)
  {
    if k > 0 {
      PowerOf256(k - 1);
      PowAdd(256, 4, 4 * (k - 1));
      assert Pow(256, 4) == BASE;
    }
  }

  // Reading back what was written

  lemma ReadWord(a: seq<byte>, x: nat, b: seq<byte>)
    requires x < BASE
    ensures LeWord(a + LeBytes(x, 4) + b, |a|) == x
  {
    PackedBack(x);
    hide LeBytes, Pack32;
    var f, s := LeBytes(x, 4), a + LeBytes(x, 4) + b;
    assert forall j :: 0 <= j < 4 ==> s[|a| + j] == f[j];
  }

  /** The digits of a number are those of its low part and then those of its high part. */
  lemma {:induction false} LeBytesSplit(x: nat, y: nat, n: nat, m: nat)
    requires x < Pow(256, n)
    ensures x + y * Pow(256, n) >= 0
    ensures LeBytes(x + y * Pow(256, n), n + m) == LeBytes(x, n) + LeBytes(y, m)
    decreases n
  {
    hide Pow;
    MulPow(y, n);
    if n > 0 {
      var q := y * Pow(256, n - 1);
      LeBytesSplit(x / 256, y, n - 1, m);
      LowDigit(x, q);
      assert LeBytes(x + 256 * q, n + m) == [x % 256] + LeBytes(x / 256 + q, n - 1 + m);
    }
  }

  lemma LowDigit(x: int, q: int)
    ensures (x + 256 * q) % 256 == x % 256 && (x + 256 * q) / 256 == x / 256 + q
  {
  }

  lemma MulPow(y: int, n: nat)
    ensures n == 0 ==> Pow(256, n) == 1 && y * Pow(256, n) == y
    ensures n > 0 ==> Pow(256, n) == 256 * Pow(256, n - 1) && y * Pow(256, n) == 256 * (y * Pow(256, n - 1))
  {
    if n > 0 {
      Assoc(y, 256, Pow(256, n - 1));
      Assoc(256, y, Pow(256, n - 1));
    }
  }

  lemma FourDigits()
    ensures Pow(256, 4) == BASE
  {
    PowerOf256(1);
    assert PowB(1) == BASE * PowB(0);
  }

  lemma ReadLong(a: seq<byte>, x: nat, b: seq<byte>)
    requires x < 0x1_0000_0000_0000_0000
    ensures LeLong(a + LeBytes(x, 8) + b, |a|) == x
  {
    hide LeBytes, LeWord, Pow;
    var lo, hi := x % BASE, x / BASE;
    FourDigits();
    LeBytesSplit(lo, hi, 4, 4);
    var l, h := LeBytes(lo, 4), LeBytes(hi, 4);
    ReadWord(a, lo, h + b);
    ReadWord(a + l, hi, b);
    var s := a + LeBytes(x, 8) + b;
    assert s == a + l + (h + b);
    assert s == (a + l) + h + b;
  }
}
