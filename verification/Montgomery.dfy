/** Montgomery multiplication on word arrays of any length. */
module Montgomery {
  import opened Arith
  import opened Words

  datatype PublicKey = PublicKey(n0inv: word, n: seq<word>, rr: seq<word>) {
    function Size(): nat { |n| }

    /** What unpacking a key buffer always gives: two arrays of the same non-zero length. */
    predicate Sized() {
      1 <= |n| == |rr|
    }

    ghost function N(): nat { Val(n) }

    ghost function R(): (r: int)
      ensures r > 0
    {
      PowB(|n|)
    }

    /** n0inv is -1 / n[0] modulo BASE. */
    ghost predicate Inverse()
      requires Sized()
    {
      (n0inv * n[0]) % BASE == BASE - 1
    }

    /** A key the exponentiation is correct for: n0inv and rr fit the modulus, whose top bit is set. */
    ghost predicate WellFormed() {
      Sized() && Inverse() && R() <= 2 * N() && 0 < N() && Cong(Val(rr), R() * R(), N())
    }
  }

  /** a[] -= mod, keeping the low words when the subtraction borrows. */
  method SubM(key: PublicKey, a: array<word>)
    requires a.Length == key.Size()
    modifies a
    ensures Val(a[..]) == Val(old(a[..])) - key.N() + if Val(old(a[..])) < key.N() then key.R() else 0
  {
    hide Val, Place, PowB;
    var A: int := 0;
    ghost var a0 := a[..];
    var i := 0;
    PlaceOne(0);
    ValEmpty(a[..0]);
    ValEmpty(key.n[..0]);
    while i < key.Size()
      invariant 0 <= i <= key.Size()
      invariant A == 0 || A == -1
      invariant a[i..] == a0[i..]
      invariant Val(a[..i]) + Place(A, i) == Val(a0[..i]) - Val(key.n[..i])
    {
      ghost var A0, low := A, a[..i];
      assert a[i] == a0[i] by { assert a[i] == a[i..][0] && a0[i] == a0[i..][0]; }
      A := A + a[i] - key.n[i];
      a[i] := A % BASE;
      A := A / BASE;
      assert a[..i + 1] == low + [a[i]];
      ValSnoc(low, a[i]);
      ValPrefix(a0, i);
      ValPrefix(key.n, i);
      BorrowStep(A0, A, a[i], a0[i], key.n[i], i);
      i := i + 1;
    }
    assert a[..i] == a[..] && a0[..i] == a0 && key.n[..i] == key.n;
    PlaceOne(i);
    ValBound(a[..]);
    ValBound(key.n);
    ValBound(a0);
  }

  /** Column arithmetic of one step of SubM. */
  lemma BorrowStep(A0: int, A: int, digit: word, x: word, y: word, i: nat)
    requires A0 == 0 || A0 == -1
    requires A == (A0 + x - y) / BASE && digit == (A0 + x - y) % BASE
    ensures A == 0 || A == -1
    ensures Place(digit, i) + Place(A, i + 1) == Place(A0, i) + Place(x, i) - Place(y, i)
  {
    hide Place;
    PlaceCarry(digit, A, i);
    PlaceAdd(A0 + x - y, y, i);
    PlaceAdd(A0, x, i);
  }

  /** Compares from the most significant word down. */
  method MontGe(key: PublicKey, a: array<word>) returns (ge: bool)
    requires a.Length == key.Size()
    ensures ge <==> Val(a[..]) >= key.N()
  {
    hide Val, Place, PowB;
    var i := key.Size();
    assert a[..i] == a[..] && key.n[..i] == key.n;
    while i > 0
      invariant 0 <= i <= key.Size()
      invariant Val(a[..]) - key.N() == Val(a[..i]) - Val(key.n[..i])
    {
      i := i - 1;
      assert a[..][..i + 1] == a[..i + 1] && a[..][..i] == a[..i];
      ValPrefix(a[..], i);
      ValPrefix(key.n, i);
      if a[i] < key.n[i] {
        TopDigit(Val(a[..i]), a[..i], a[i], Val(key.n[..i]), key.n[i], i);
        return false;
      }
      if a[i] > key.n[i] {
        TopDigit(Val(key.n[..i]), key.n[..i], key.n[i], Val(a[..i]), a[i], i);
        return true;
      }
    }
    ValEmpty(a[..0]);
    ValEmpty(key.n[..0]);
    return true;
  }

  lemma TopDigit(v: nat, low: seq<word>, x: word, w: nat, y: word, i: nat)
    requires v == Val(low) && |low| == i && x < y
    ensures v + Place(x, i) < w + Place(y, i)
  {
    hide Place;
    ValBound(low);
    PlaceMono(x + 1, y, i);
    PlaceAdd(x, 1, i);
    PlaceOne(i);
  }

  /**
   * What one step leaves in c: below R, and BASE * c' is congruent to c + a * b modulo the modulus.
   */
  ghost predicate AddStep(key: PublicKey, c: nat, a: word, b: nat, c': nat)
    requires key.N() > 0
  {
    c' < key.R() && Cong(BASE * c', c + a * b, key.N())
  }

  /** A product of two words, as the source's 64-bit multiplication computes it. */
  function Mul64(x: word, y: word): (r: int)
    ensures 0 <= r <= 0xFFFF_FFFE_0000_0001
  {
    MulBound(x, y, 0xFFFF_FFFF);
    x * y
  }

  /**
   * After i columns, the words already written, the two pending carries and the discarded lowest
   * word together hold the sum of the low i words of c, a * b and d0 * mod.
   */
  ghost predicate Columns(key: PublicKey, a: word, b: seq<word>, c0: seq<word>, d0: word,
                          i: nat, written: int, carries: int, dropped: int)
    requires i <= |b| && i <= |c0| && i <= |key.n|
  {
    dropped + BASE * written + Place(carries, i) == Val(c0[..i]) + a * Val(b[..i]) + d0 * Val(key.n[..i])
  }

  /**
   * c[] = (c[] + a * b[]) / BASE modulo mod. The accumulators of the source are 64 bits wide; the
   * loop invariants say that neither overflows.
   */
  method MontMulAdd(key: PublicKey, c: array<word>, a: word, b: seq<word>)
    requires key.Sized()
    requires c.Length == key.Size() == |b|
    modifies c
    ensures key.Inverse() ==> key.N() > 0 && AddStep(key, Val(old(c[..])), a, Val(b), Val(c[..]))
  {
    hide Val, Place, PowB, Mul64, Columns, AddStep, PublicKey.Inverse, PublicKey.R;
    ghost var c0 := c[..];
    var A: int := Mul64(a, b[0]) + c[0];
    var d0: word := Mul64(A % BASE, key.n0inv) % BASE;
    var B: int := Mul64(d0, key.n[0]) + A % BASE;
    ghost var dropped := B % BASE;
    FirstColumn(key, a, b, c0, A, d0, B);
    ValEmpty(c[..0]);
    var i := 1;
    while i < key.Size()
      invariant 1 <= i <= key.Size()
      invariant 0 <= A < BASE * BASE
      invariant 0 <= B < BASE * BASE
      invariant c[i..] == c0[i..]
      invariant Columns(key, a, b, c0, d0, i, Val(c[..i - 1]), A / BASE + B / BASE, dropped)
    {
      ghost var A0, B0, low := A, B, c[..i - 1];
      assert c[i] == c0[i] by { assert c[i] == c[i..][0] && c0[i] == c0[i..][0]; }
      A := A / BASE + Mul64(a, b[i]) + c[i];
      B := B / BASE + Mul64(d0, key.n[i]) + A % BASE;
      c[i - 1] := B % BASE;
      assert c[..i] == low + [c[i - 1]];
      ValSnoc(low, c[i - 1]);
      NextColumn(key, a, b, c0, d0, i, Val(low), A0 / BASE + B0 / BASE, c[i - 1], A / BASE + B / BASE, dropped);
      i := i + 1;
    }
    ghost var low := c[..i - 1];
    A := A / BASE + B / BASE;
    c[i - 1] := A % BASE;
    assert c[..] == low + [c[i - 1]];
    ValSnoc(low, c[i - 1]);
    LastColumn(key, a, b, c0, d0, Val(low), A, dropped);
    ghost var c1 := c[..];
    if A / BASE != 0 {
      SubM(key, c);
    }
    if key.Inverse() {
      Reduced(key, a, b, c0, d0, c1, A / BASE, Val(c[..]));
    }
  }

  /** With the right n0inv the lowest word of the sum is zero. */
  lemma FirstColumn(key: PublicKey, a: word, b: seq<word>, c0: seq<word>, A: int, d0: word, B: int)
    requires key.Sized() && |b| == |c0| == |key.n|
    requires A == Mul64(a, b[0]) + c0[0] && d0 == Mul64(A % BASE, key.n0inv) % BASE
    requires B == Mul64(d0, key.n[0]) + A % BASE
    ensures Columns(key, a, b, c0, d0, 1, 0, A / BASE + B / BASE, B % BASE)
    ensures key.Inverse() ==> B % BASE == 0
  {
    if key.Inverse() {
      ZeroColumn(BASE, A % BASE, key.n0inv, key.n[0], d0);
    }
    FirstValue(c0);
    FirstValue(b);
    FirstValue(key.n);
    PlaceCarry(0, A / BASE + B / BASE, 0);
    assert PowB(0) == 1;
    hide Val, Place, PowB;
  }

  lemma FirstValue(s: seq<word>)
    requires |s| > 0
    ensures Val(s[..1]) == s[0]
  {
    assert s[..1][..0] == [];
    assert PowB(0) == 1;
  }

  lemma ZeroColumn(base: int, x: int, inv: int, m: int, d: int)
    requires base > 1
    requires (inv * m) % base == base - 1
    requires d == (x * inv) % base
    ensures (d * m + x) % base == 0
  {
    CongMod(inv * m, base);
    CongMod(x * inv, base);
    ZeroSum(base, x, inv, m, d);
    CongZero(d * m + x, base);
  }

  lemma ZeroSum(base: int, x: int, inv: int, m: int, d: int)
    requires base > 1
    requires Cong(base - 1, inv * m, base)
    requires Cong(d, x * inv, base)
    ensures Cong(d * m + x, 0, base)
  {
    hide Cong;
    CongScale(d, x * inv, m, base);
    CongScale(base - 1, inv * m, x, base);
    Assoc(x, inv, m);
    CongRefl(x, base);
    CongSym((base - 1) * x, (inv * m) * x, base);
    CongTrans(d * m, (x * inv) * m, (base - 1) * x, base);
    CongAdd(d * m, (base - 1) * x, x, x, base);
    Distrib(base, -1, x);
    CongIntro((base - 1) * x + x, 0, base, x);
    CongTrans(d * m + x, (base - 1) * x + x, 0, base);
  }

  lemma NextColumn(key: PublicKey, a: word, b: seq<word>, c0: seq<word>, d0: word, i: nat,
                   written: nat, carries: int, digit: word, carries': int, dropped: int)
    requires 1 <= i < |key.n| == |b| == |c0|
    requires Columns(key, a, b, c0, d0, i, written, carries, dropped)
    requires digit + BASE * carries' == carries + Mul64(a, b[i]) + c0[i] + Mul64(d0, key.n[i])
    ensures Columns(key, a, b, c0, d0, i + 1, written + Place(digit, i - 1), carries', dropped)
  {
    ScaledPrefix(a, b, i);
    ScaledPrefix(d0, key.n, i);
    ValPrefix(c0, i);
    hide Val, Place, PowB, Mul64;
    PlaceCarry(digit, carries', i);
    PlaceCarry(0, digit, i - 1);
    PlaceBase(digit, i - 1);
    PlaceAdd(carries + Mul64(a, b[i]) + c0[i], Mul64(d0, key.n[i]), i);
    PlaceAdd(carries + Mul64(a, b[i]), c0[i], i);
    PlaceAdd(carries, Mul64(a, b[i]), i);
  }

  lemma ScaledPrefix(a: word, b: seq<word>, i: nat)
    requires i < |b|
    ensures a * Val(b[..i + 1]) == a * Val(b[..i]) + Place(Mul64(a, b[i]), i)
  {
    ValPrefix(b, i);
    Distrib(Val(b[..i]), Place(b[i], i), a);
    Assoc(a, b[i], PowB(i));
  }

  lemma LastColumn(key: PublicKey, a: word, b: seq<word>, c0: seq<word>, d0: word,
                   written: nat, A: int, dropped: int)
    requires key.Sized() && |b| == |c0| == |key.n|
    requires Columns(key, a, b, c0, d0, |key.n|, written, A, dropped)
    ensures dropped + BASE * (written + Place(A % BASE, |key.n| - 1) + (A / BASE) * key.R())
              == Val(c0) + a * Val(b) + d0 * key.N()
  {
    var k := |key.n|;
    assert c0[..k] == c0 && b[..k] == b && key.n[..k] == key.n;
    assert (A / BASE) * key.R() == Place(A / BASE, k);
    hide Val, Place, PowB;
    PlaceCarry(A % BASE, A / BASE, k);
    PlaceBase(A % BASE, k - 1);
    PlaceBase(A / BASE, k);
  }

  /**
   * The carry out of the top word is at most 1, and the borrow that the one subtraction drops
   * cancels exactly that carry.
   */
  lemma Reduced(key: PublicKey, a: word, b: seq<word>, c0: seq<word>, d0: word, c1: seq<word>, carry: int, c2: nat)
    requires key.Sized() && key.Inverse() && |b| == |c0| == |c1| == |key.n|
    requires BASE * (Val(c1) + carry * key.R()) == Val(c0) + a * Val(b) + d0 * key.N()
    requires carry == 0 ==> c2 == Val(c1)
    requires carry != 0 ==> c2 == Val(c1) - key.N() + if Val(c1) < key.N() then key.R() else 0
    ensures 0 <= carry <= 1
    ensures carry == 1 ==> Val(c1) < key.N()
    ensures key.N() > 0 && AddStep(key, Val(c0), a, Val(b), c2)
  {
    hide Val, Place, PowB, Cong;
    ValBound(key.n);
    ValBound(b);
    ValBound(c0);
    ValBound(c1);
    LowWord(key.n);
    NonzeroLow(key);
    ReducedSum(BASE, key.R(), key.N(), a, Val(b), Val(c0), d0, Val(c1), carry, c2);
  }

  lemma NonzeroLow(key: PublicKey)
    requires key.Sized() && key.Inverse()
    ensures key.n[0] > 0
  {
  }

  lemma ReducedSum(base: int, R: int, N: int, a: int, b: int, c0: int, d0: int, c1: int, carry: int, c2: int)
    requires base > 0 && 0 < N < R && 0 <= a < base && 0 <= d0 < base
    requires 0 <= b < R && 0 <= c0 < R && 0 <= c1 < R
    requires base * (c1 + carry * R) == c0 + a * b + d0 * N
    requires carry == 0 ==> c2 == c1
    requires carry != 0 ==> c2 == c1 - N + if c1 < N then R else 0
    ensures 0 <= carry <= 1
    ensures carry == 1 ==> c1 < N
    ensures c2 < R && Cong(base * c2, c0 + a * b, N)
  {
    CarryBound(base, R, N, a, b, c0, d0, c1, carry);
    if carry == 0 {
      ReducedCong(base, R, N, a, b, c0, d0, c1, 0, c2);
    } else {
      ReducedCong(base, R, N, a, b, c0, d0, c1, 1, c2);
    }
  }

  lemma ReducedCong(base: int, R: int, N: int, a: int, b: int, c0: int, d0: int, c1: int, carry: int, c2: int)
    requires N > 0 && 0 <= carry <= 1
    requires c2 == c1 + carry * R - carry * N
    requires base * (c1 + carry * R) == c0 + a * b + d0 * N
    ensures Cong(base * c2, c0 + a * b, N)
  {
    if carry == 0 {
      CongIntro(base * c2, c0 + a * b, N, d0);
    } else {
      Distrib(c1 + R, -N, base);
      Distrib(d0, -base, N);
      CongIntro(base * c2, c0 + a * b, N, d0 - base);
    }
  }

  lemma CarryBound(base: int, R: int, N: int, a: int, b: int, c0: int, d0: int, c1: int, carry: int)
    requires base > 0 && 0 < N < R && 0 <= a < base && 0 <= d0 < base
    requires 0 <= b < R && 0 <= c0 < R && 0 <= c1 < R
    requires base * (c1 + carry * R) == c0 + a * b + d0 * N
    ensures 0 <= carry <= 1
    ensures carry == 1 ==> c1 < N
  {
    var v := c1 + carry * R;
    MulLe(a, base - 1, b);
    MulLe(b, R, base - 1);
    MulLe(d0, base - 1, N);
    Distrib(base, -1, R);
    Distrib(base, -1, N);
    Distrib(R, N, base);
    assert base * v < base * (R + N);
    assert v < R + N by {
      if v >= R + N { MulLe(R + N, v, base); }
    }
    MulLe(0, a, b);
    MulLe(0, d0, N);
    assert v >= 0 by {
      if v <= -1 { MulLe(v, -1, base); }
    }
    if carry >= 2 { MulLe(2, carry, R); }
    if carry <= -1 { MulLe(carry, -1, R); }
  }

  /** c[] = a[] * b[] / R modulo mod, for every a and b below R. */
  method MontMul(key: PublicKey, c: array<word>, a: seq<word>, b: seq<word>)
    requires key.Sized()
    requires c.Length == key.Size() == |a| == |b|
    modifies c
    ensures key.Inverse() ==> key.N() > 0 && Cong(Val(c[..]) * key.R(), Val(a) * Val(b), key.N())
  {
    hide Val, Place, PowB, AddStep, Cong, PublicKey.Inverse;
    var i := 0;
    while i < key.Size()
      invariant 0 <= i <= key.Size()
      invariant forall j :: 0 <= j < i ==> c[j] == 0
    {
      c[i] := 0;
      i := i + 1;
    }
    if key.Inverse() { MulStart(key, c[..], a, b); }
    i := 0;
    while i < key.Size()
      invariant 0 <= i <= key.Size()
      invariant key.Inverse() ==> MulPrefix(key, Val(c[..]), a, i, b)
    {
      ghost var c0 := Val(c[..]);
      MontMulAdd(key, c, a[i], b);
      if key.Inverse() { MulStep(key, c0, a, i, b, Val(c[..])); }
      i := i + 1;
    }
    assert a[..i] == a;
  }

  /** After i words of a: c * BASE^i is congruent to (the low i words of a) * b. */
  ghost predicate MulPrefix(key: PublicKey, c: nat, a: seq<word>, i: nat, b: seq<word>)
    requires i <= |a|
  {
    key.N() > 0 && Cong(c * PowB(i), Val(a[..i]) * Val(b), key.N())
  }

  lemma MulStart(key: PublicKey, c: seq<word>, a: seq<word>, b: seq<word>)
    requires key.Sized() && key.Inverse()
    requires forall j :: 0 <= j < |c| ==> c[j] == 0
    ensures MulPrefix(key, Val(c), a, 0, b)
  {
    ValZero(c);
    LowWord(key.n);
    NonzeroLow(key);
    ValEmpty(a[..0]);
  }

  lemma MulStep(key: PublicKey, c: nat, a: seq<word>, i: nat, b: seq<word>, c': nat)
    requires i < |a|
    requires MulPrefix(key, c, a, i, b)
    requires AddStep(key, c, a[i], Val(b), c')
    ensures MulPrefix(key, c', a, i + 1, b)
  {
    ValPrefix(a, i);
    PlaceOne(i);
    assert Place(a[i], i) == a[i] * PowB(i);
    hide Val, Place, PowB;
    MulStepArith(BASE, PowB(i), c, Val(a[..i]), a[i], Val(b), c', key.N());
  }

  lemma MulStepArith(base: int, p: int, c: int, A: int, a: int, b: int, c': int, N: int)
    requires N > 0
    requires Cong(c * p, A * b, N)
    requires Cong(base * c', c + a * b, N)
    ensures Cong(c' * (base * p), (A + a * p) * b, N)
  {
    hide Cong;
    CongScale(base * c', c + a * b, p, N);
    Rearranged(base, p, c, A, a, b, c');
    CongReplace((base * c') * p, c * p, A * b, (a * b) * p, N);
  }

  lemma Rearranged(base: int, p: int, c: int, A: int, a: int, b: int, c': int)
    ensures (c + a * b) * p == c * p + (a * b) * p
    ensures (base * c') * p == c' * (base * p)
    ensures (A + a * p) * b == A * b + (a * b) * p
  {
    Distrib(c, a * b, p);
    Assoc(c', base, p);
    Distrib(A, a * p, b);
    Assoc(b, a, p);
  }

  lemma CongReplace(x: int, y: int, z: int, q: int, N: int)
    requires N > 0 && Cong(x, y + q, N) && Cong(y, z, N)
    ensures Cong(x, z + q, N)
  {
    hide Cong;
    CongRefl(q, N);
    CongAdd(y, z, q, q, N);
    CongTrans(x, y + q, z + q, N);
  }
}
