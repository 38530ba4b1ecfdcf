/** Powers and congruences over unbounded integers. */
module Arith {

  function Pow(b: int, e: nat): int
  {
    if e == 0 then 1 else b * Pow(b, e - 1)
  }

  lemma {:induction false} PowAdd(b: int, e1: nat, e2: nat)
    ensures Pow(b, e1 + e2) == Pow(b, e1) * Pow(b, e2)
  {
    if e1 == 0 {
      assert Pow(b, e1) == 1;
    } else {
      PowAdd(b, e1 - 1, e2);
      calc {
        Pow(b, e1 + e2);
        b * Pow(b, (e1 - 1) + e2);
        b * (Pow(b, e1 - 1) * Pow(b, e2));
        (b * Pow(b, e1 - 1)) * Pow(b, e2);
      }
    }
  }

  lemma {:induction false} PowPositive(b: int, e: nat)
    requires 0 < b
    ensures 0 < Pow(b, e)
  {
    if e > 0 {
      PowPositive(b, e - 1);
      MulPositive(b, Pow(b, e - 1));
    }
  }

  lemma MulPositive(x: int, y: int)
    requires 0 < x && 0 < y
    ensures 0 < x * y
  {
  }

  lemma MulLe(x: int, y: int, z: int)
    requires x <= y && 0 <= z
    ensures x * z <= y * z
  {
  }

  lemma MulBound(x: int, y: int, m: int)
    requires 0 <= x <= m && 0 <= y <= m
    ensures 0 <= x * y <= m * m
  {
    MulLe(x, m, y);
    MulLe(y, m, m);
  }

  lemma Assoc(x: int, y: int, z: int)
    ensures x * (y * z) == (x * y) * z
  {
  }

  lemma Distrib(x: int, y: int, z: int)
    ensures (x + y) * z == x * z + y * z
    ensures z * (x + y) == z * x + z * y
  {
  }

  /** Quotient and remainder are the only way to write x as q * n + r with 0 <= r < n. */
  lemma DivModUnique(x: int, n: int, q: int, r: int)
    requires 0 <= r < n
    requires x == q * n + r
    ensures x / n == q && x % n == r
  {
    var d := x / n - q;
    assert x == (x / n) * n + x % n;
    assert d * n == r - x % n by {
      assert d * n == (x / n) * n - q * n;
    }
    if d > 0 {
      MulLe(1, d, n);
    } else if d < 0 {
      MulLe(d, -1, n);
    }
  }

  /** x and y leave the same remainder modulo n. */
  ghost predicate Cong(x: int, y: int, n: int)
    requires n > 0
  {
    x % n == y % n
  }

  lemma CongIntro(x: int, y: int, n: int, q: int)
    requires n > 0
    requires x == y + q * n
    ensures Cong(x, y, n)
  {
    var d := y / n;
    assert x == (d + q) * n + y % n by {
      assert (d + q) * n == d * n + q * n;
    }
    DivModUnique(x, n, d + q, y % n);
  }

  lemma CongElim(x: int, y: int, n: int) returns (q: int)
    requires n > 0
    requires Cong(x, y, n)
    ensures x == y + q * n
  {
    q := x / n - y / n;
    assert q * n == (x / n) * n - (y / n) * n;
  }

  lemma CongRefl(x: int, n: int)
    requires n > 0
    ensures Cong(x, x, n)
  {
  }

  lemma CongSym(x: int, y: int, n: int)
    requires n > 0 && Cong(x, y, n)
    ensures Cong(y, x, n)
  {
  }

  lemma CongTrans(x: int, y: int, z: int, n: int)
    requires n > 0 && Cong(x, y, n) && Cong(y, z, n)
    ensures Cong(x, z, n)
  {
  }

  lemma CongMod(x: int, n: int)
    requires n > 0
    ensures Cong(x % n, x, n)
  {
    CongIntro(x, x % n, n, x / n);
  }

  lemma CongZero(x: int, n: int)
    requires n > 0 && Cong(x, 0, n)
    ensures x % n == 0
  {
    DivModUnique(0, n, 0, 0);
  }

  lemma CongAdd(x: int, y: int, u: int, v: int, n: int)
    requires n > 0
    requires Cong(x, y, n) && Cong(u, v, n)
    ensures Cong(x + u, y + v, n)
  {
    var p := CongElim(x, y, n);
    var q := CongElim(u, v, n);
    assert (p + q) * n == p * n + q * n;
    CongIntro(x + u, y + v, n, p + q);
  }

  lemma CongScale(x: int, y: int, c: int, n: int)
    requires n > 0
    requires Cong(x, y, n)
    ensures Cong(x * c, y * c, n)
  {
    var p := CongElim(x, y, n);
    calc {
      x * c;
      (y + p * n) * c;
      y * c + (p * n) * c;
      y * c + (p * c) * n;
    }
    CongIntro(x * c, y * c, n, p * c);
  }

  lemma CongMul(x: int, y: int, u: int, v: int, n: int)
    requires n > 0
    requires Cong(x, y, n) && Cong(u, v, n)
    ensures Cong(x * u, y * v, n)
  {
    CongScale(x, y, u, n);
    CongScale(u, v, y, n);
  }

  /** A factor with an inverse modulo n can be cancelled. */
  lemma CongCancel(x: int, y: int, c: int, inv: int, n: int)
    requires n > 0
    requires Cong(c * inv, 1, n)
    requires Cong(x * c, y * c, n)
    ensures Cong(x, y, n)
  {
    CongScale(x * c, y * c, inv, n);
    CongScale(c * inv, 1, x, n);
    CongScale(c * inv, 1, y, n);
    assert (x * c) * inv == (c * inv) * x;
    assert (y * c) * inv == (c * inv) * y;
  }

  lemma {:induction false} CongPow(x: int, y: int, e: nat, n: int)
    requires n > 0
    requires Cong(x, y, n)
    ensures Cong(Pow(x, e), Pow(y, e), n)
  {
    if e > 0 {
      CongPow(x, y, e - 1, n);
      CongMul(x, y, Pow(x, e - 1), Pow(y, e - 1), n);
    }
  }

  lemma TwoTo16()
    ensures Pow(2, 16) == 0x1_0000
  {
    assert Pow(2, 2) == 2 * Pow(2, 1) == 4;
    PowAdd(2, 2, 2);
    PowAdd(2, 4, 4);
    PowAdd(2, 8, 8);
  }

  lemma TwoTo32()
    ensures Pow(2, 32) == 0x1_0000_0000
  {
    TwoTo16();
    PowAdd(2, 16, 16);
  }
}
