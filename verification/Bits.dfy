/** The logical functions of section 4.1.2 of FIPS 180-4, and what each bit of their results is. */
module Bits {

  function Shr(x: bv32, n: bv6): bv32
    requires 0 < n < 32
  {
    x >> n
  }

  function Rotr(x: bv32, n: bv6): bv32
    requires 0 < n < 32
  {
    (x >> n) | (x << (32 - n))
  }

  function Ch(x: bv32, y: bv32, z: bv32): bv32
  {
    (x & y) ^ (!x & z)
  }

  function Maj(x: bv32, y: bv32, z: bv32): bv32
  {
    (x & y) ^ (x & z) ^ (y & z)
  }

  function BigSigma0(x: bv32): bv32
  {
    Rotr(x, 2) ^ Rotr(x, 13) ^ Rotr(x, 22)
  }

  function BigSigma1(x: bv32): bv32
  {
    Rotr(x, 6) ^ Rotr(x, 11) ^ Rotr(x, 25)
  }

  function SmallSigma0(x: bv32): bv32
  {
    Rotr(x, 7) ^ Rotr(x, 18) ^ Shr(x, 3)
  }

  function SmallSigma1(x: bv32): bv32
  {
    Rotr(x, 17) ^ Rotr(x, 19) ^ Shr(x, 10)
  }

  // What they are

  /** The first word chooses between the other two. */
  lemma ChChooses(x: bv32, y: bv32, z: bv32)
    ensures Ch(x, y, z) & x == y & x
    ensures Ch(x, y, z) & !x == z & !x
  {
  }

  /** Where two words agree, so does the majority; where they differ, the third decides. */
  lemma MajDecides(x: bv32, y: bv32, z: bv32)
    ensures Maj(x, y, z) & !(y ^ z) == y & !(y ^ z)
    ensures Maj(x, y, z) & (y ^ z) == x & (y ^ z)
  {
  }

  /** The two parts that a mask cuts a word into determine it, so the laws above leave no choice. */
  lemma MaskDecides(a: bv32, b: bv32, m: bv32)
    requires a & m == b & m && a & !m == b & !m
    ensures a == b
  {
  }

  function Rotl(x: bv32, n: bv6): bv32
    requires 0 < n < 32
  {
    (x << n) | (x >> (32 - n))
  }

  /** Nothing is lost in a rotation. */
  lemma RotlUndoes(x: bv32, n: bv6)
    requires 0 < n < 32
    ensures Rotl(Rotr(x, n), n) == x
  {
    hide Rotr;
    HighBack(x, n);
    LowBack(x, n);
    BothParts(x, n);
  }

  lemma HighBack(x: bv32, n: bv6)
    requires 0 < n < 32
    ensures Rotr(x, n) << n == (x >> n) << n
  {
  }

  lemma LowBack(x: bv32, n: bv6)
    requires 0 < n < 32
    ensures Rotr(x, n) >> (32 - n) == (x << (32 - n)) >> (32 - n)
  {
  }

  lemma BothParts(x: bv32, n: bv6)
    requires 0 < n < 32
    ensures ((x >> n) << n) | ((x << (32 - n)) >> (32 - n)) == x
  {
  }

  /** The two shifts that occur are divisions. */
  lemma ShrDivides(x: bv32)
    ensures Shr(x, 3) == x / 8 && Shr(x, 10) == x / 1024
  {
  }

  predicate Bit(x: bv32, i: bv6)
    requires i < 32
  {
    (x >> i) & 1 == 1
  }

  /** Whether an odd number of three bits is set. */
  predicate Odd(p: bool, q: bool, r: bool)
  {
    p != (q != r)
  }

  lemma OddBit(a: bv32, b: bv32, c: bv32, i: bv6)
    requires i < 32
    ensures Bit(a ^ b ^ c, i) == Odd(Bit(a, i), Bit(b, i), Bit(c, i))
  {
  }

  // Bit i of a rotation to the right is the bit n places further left, around the end

  lemma Rotr2(x: bv32, i: bv6)
    requires i < 32
    ensures Bit(Rotr(x, 2), i) == Bit(x, (i + 2) & 31)
  {
  }

  lemma Rotr6(x: bv32, i: bv6)
    requires i < 32
    ensures Bit(Rotr(x, 6), i) == Bit(x, (i + 6) & 31)
  {
  }

  lemma Rotr7(x: bv32, i: bv6)
    requires i < 32
    ensures Bit(Rotr(x, 7), i) == Bit(x, (i + 7) & 31)
  {
  }

  lemma Rotr11(x: bv32, i: bv6)
    requires i < 32
    ensures Bit(Rotr(x, 11), i) == Bit(x, (i + 11) & 31)
  {
  }

  lemma Rotr13(x: bv32, i: bv6)
    requires i < 32
    ensures Bit(Rotr(x, 13), i) == Bit(x, (i + 13) & 31)
  {
  }

  lemma Rotr17(x: bv32, i: bv6)
    requires i < 32
    ensures Bit(Rotr(x, 17), i) == Bit(x, (i + 17) & 31)
  {
  }

  lemma Rotr18(x: bv32, i: bv6)
    requires i < 32
    ensures Bit(Rotr(x, 18), i) == Bit(x, (i + 18) & 31)
  {
  }

  lemma Rotr19(x: bv32, i: bv6)
    requires i < 32
    ensures Bit(Rotr(x, 19), i) == Bit(x, (i + 19) & 31)
  {
  }

  lemma Rotr22(x: bv32, i: bv6)
    requires i < 32
    ensures Bit(Rotr(x, 22), i) == Bit(x, (i + 22) & 31)
  {
  }

  lemma Rotr25(x: bv32, i: bv6)
    requires i < 32
    ensures Bit(Rotr(x, 25), i) == Bit(x, (i + 25) & 31)
  {
  }

  // Of a shift there is none beyond the end

  lemma Shr3(x: bv32, i: bv6)
    requires i < 32
    ensures Bit(Shr(x, 3), i) == (i < 29 && Bit(x, i + 3))
  {
  }

  lemma Shr10(x: bv32, i: bv6)
    requires i < 32
    ensures Bit(Shr(x, 10), i) == (i < 22 && Bit(x, i + 10))
  {
  }

  // So each bit of a sigma function is the parity of three

  lemma BigSigma0Bit(x: bv32, i: bv6)
    requires i < 32
    ensures Bit(BigSigma0(x), i) == Odd(Bit(x, (i + 2) & 31), Bit(x, (i + 13) & 31), Bit(x, (i + 22) & 31))
  {
    hide Bit, Rotr, Shr;
    Rotr2(x, i);
    Rotr13(x, i);
    Rotr22(x, i);
    OddBit(Rotr(x, 2), Rotr(x, 13), Rotr(x, 22), i);
  }

  lemma BigSigma1Bit(x: bv32, i: bv6)
    requires i < 32
    ensures Bit(BigSigma1(x), i) == Odd(Bit(x, (i + 6) & 31), Bit(x, (i + 11) & 31), Bit(x, (i + 25) & 31))
  {
    hide Bit, Rotr, Shr;
    Rotr6(x, i);
    Rotr11(x, i);
    Rotr25(x, i);
    OddBit(Rotr(x, 6), Rotr(x, 11), Rotr(x, 25), i);
  }

  lemma SmallSigma0Bit(x: bv32, i: bv6)
    requires i < 32
    ensures Bit(SmallSigma0(x), i) == Odd(Bit(x, (i + 7) & 31), Bit(x, (i + 18) & 31), i < 29 && Bit(x, i + 3))
  {
    hide Bit, Rotr, Shr;
    Rotr7(x, i);
    Rotr18(x, i);
    Shr3(x, i);
    OddBit(Rotr(x, 7), Rotr(x, 18), Shr(x, 3), i);
  }

  lemma SmallSigma1Bit(x: bv32, i: bv6)
    requires i < 32
    ensures Bit(SmallSigma1(x), i) == Odd(Bit(x, (i + 17) & 31), Bit(x, (i + 19) & 31), i < 22 && Bit(x, i + 10))
  {
    hide Bit, Rotr, Shr;
    Rotr17(x, i);
    Rotr19(x, i);
    Shr10(x, i);
    OddBit(Rotr(x, 17), Rotr(x, 19), Shr(x, 10), i);
  }
}
