/** SHA-256 as FIPS 180-4 defines it, and the streaming context that computes it. */
module Sha256 {
  import opened Arith
  import opened Words
  import Bits

  // Functions of section 4.1.2 of FIPS 180-4, on words as numbers

  function Add(x: word, y: word): word { (x + y) % BASE }

  function Ch(x: word, y: word, z: word): word
  {
    Bits.Ch(x as bv32, y as bv32, z as bv32) as word
  }

  function Maj(x: word, y: word, z: word): word
  {
    Bits.Maj(x as bv32, y as bv32, z as bv32) as word
  }

  function BigSigma0(x: word): word
  {
    Bits.BigSigma0(x as bv32) as word
  }

  function BigSigma1(x: word): word
  {
    Bits.BigSigma1(x as bv32) as word
  }

  function SmallSigma0(x: word): word
  {
    Bits.SmallSigma0(x as bv32) as word
  }

  function SmallSigma1(x: word): word
  {
    Bits.SmallSigma1(x as bv32) as word
  }

  const H0: seq<word> :=
    [0x6a09e667, 0xbb67ae85, 0x3c6ef372, 0xa54ff53a, 0x510e527f, 0x9b05688c, 0x1f83d9ab, 0x5be0cd19]

  const K0: seq<word> :=
    [0x428a2f98, 0x71374491, 0xb5c0fbcf, 0xe9b5dba5, 0x3956c25b, 0x59f111f1, 0x923f82a4, 0xab1c5ed5]

  const K1: seq<word> :=
    [0xd807aa98, 0x12835b01, 0x243185be, 0x550c7dc3, 0x72be5d74, 0x80deb1fe, 0x9bdc06a7, 0xc19bf174]

  const K2: seq<word> :=
    [0xe49b69c1, 0xefbe4786, 0x0fc19dc6, 0x240ca1cc, 0x2de92c6f, 0x4a7484aa, 0x5cb0a9dc, 0x76f988da]

  const K3: seq<word> :=
    [0x983e5152, 0xa831c66d, 0xb00327c8, 0xbf597fc7, 0xc6e00bf3, 0xd5a79147, 0x06ca6351, 0x14292967]

  const K4: seq<word> :=
    [0x27b70a85, 0x2e1b2138, 0x4d2c6dfc, 0x53380d13, 0x650a7354, 0x766a0abb, 0x81c2c92e, 0x92722c85]

  const K5: seq<word> :=
    [0xa2bfe8a1, 0xa81a664b, 0xc24b8b70, 0xc76c51a3, 0xd192e819, 0xd6990624, 0xf40e3585, 0x106aa070]

  const K6: seq<word> :=
    [0x19a4c116, 0x1e376c08, 0x2748774c, 0x34b0bcb5, 0x391c0cb3, 0x4ed8aa4a, 0x5b9cca4f, 0x682e6ff3]

  const K7: seq<word> :=
    [0x748f82ee, 0x78a5636f, 0x84c87814, 0x8cc70208, 0x90befffa, 0xa4506ceb, 0xbef9a3f7, 0xc67178f2]

  /** The 64 round constants of section 4.2.2. */
  const K: seq<word> := K0 + K1 + K2 + K3 + K4 + K5 + K6 + K7

  lemma TableSizes()
    ensures |H0| == 8 && |K| == 64
  {
  }

  /** Message schedule W_t of section 6.2.2, step 1. */
  ghost function W(block: seq<byte>, t: nat): word
    requires |block| == 64 && t < 64
  {
    if t < 16 then BeWord(block, 4 * t)
    else Add(Add(Add(SmallSigma1(W(block, t - 2)), W(block, t - 7)), SmallSigma0(W(block, t - 15))), W(block, t - 16))
  }

  datatype State = State(a: word, b: word, c: word, d: word, e: word, f: word, g: word, h: word)

  /** One round of section 6.2.2, step 3. */
  ghost function Round(s: State, k: word, w: word): State
  {
    var t1 := Add(Add(Add(Add(s.h, BigSigma1(s.e)), Ch(s.e, s.f, s.g)), k), w);
    var t2 := Add(BigSigma0(s.a), Maj(s.a, s.b, s.c));
    State(Add(t1, t2), s.a, s.b, s.c, Add(s.d, t1), s.e, s.f, s.g)
  }

  ghost function Rounds(s: State, block: seq<byte>, t: nat): State
    requires |block| == 64 && t <= 64
  {
    if t == 0 then s else TableSizes(); Round(Rounds(s, block, t - 1), K[t - 1], W(block, t - 1))
  }

  ghost function ToState(h: seq<word>): State
    requires |h| == 8
  {
    State(h[0], h[1], h[2], h[3], h[4], h[5], h[6], h[7])
  }

  ghost function AddState(h: seq<word>, s: State): (r: seq<word>)
    requires |h| == 8
    ensures |r| == 8
  {
    [Add(h[0], s.a), Add(h[1], s.b), Add(h[2], s.c), Add(h[3], s.d),
     Add(h[4], s.e), Add(h[5], s.f), Add(h[6], s.g), Add(h[7], s.h)]
  }

  ghost function Compress(h: seq<word>, block: seq<byte>): (r: seq<word>)
    requires |h| == 8 && |block| == 64
    ensures |r| == 8
  {
    TableSizes();
    AddState(h, Rounds(ToState(h), block, |K|))
  }

  /** Folds the compression function over the first n blocks of m. */
  ghost function HashBlocks(h: seq<word>, m: seq<byte>, n: nat): (r: seq<word>)
    requires |h| == 8 && 64 * n <= |m|
    ensures |r| == 8
    decreases n
  {
    hide Compress;
    if n == 0 then h else Compress(HashBlocks(h, m, n - 1), m[64 * (n - 1)..64 * n])
  }

  /** The fold reads nothing after its n blocks. */
  lemma {:induction false} HashBlocksPrefix(h: seq<word>, m: seq<byte>, m': seq<byte>, n: nat)
    requires |h| == 8 && 64 * n <= |m| && 64 * n <= |m'|
    requires m[..64 * n] == m'[..64 * n]
    ensures HashBlocks(h, m, n) == HashBlocks(h, m', n)
    decreases n
  {
    hide Compress;
    if n > 0 {
      assert m[..64 * (n - 1)] == m[..64 * n][..64 * (n - 1)] == m'[..64 * (n - 1)];
      assert m[64 * (n - 1)..64 * n] == m[..64 * n][64 * (n - 1)..] == m'[64 * (n - 1)..64 * n];
      HashBlocksPrefix(h, m, m', n - 1);
    }
  }

  /** Transforming p blocks and then q blocks is transforming p + q blocks. */
  lemma {:induction false} HashBlocksConcat(h: seq<word>, m: seq<byte>, p: nat, q: nat)
    requires |h| == 8 && 64 * (p + q) <= |m|
    ensures HashBlocks(h, m, p + q) == HashBlocks(HashBlocks(h, m, p), m[64 * p..], q)
    decreases q
  {
    hide Compress;
    if q > 0 {
      HashBlocksConcat(h, m, p, q - 1);
      assert m[64 * p..][64 * (q - 1)..64 * q] == m[64 * (p + q - 1)..64 * (p + q)];
    }
  }

  /** How many blocks a message of this length pads to. */
  function PadBlocks(len: nat): nat
  {
    len / 64 + if len % 64 < 56 then 1 else 2
  }

  /** The least number of zeros for which message, one bit, zeros and length fill whole blocks. */
  function PadZeros(len: nat): (z: nat)
    ensures z < 64 && len + 1 + z + 8 == 64 * PadBlocks(len)
  {
    64 * PadBlocks(len) - len - 9
  }

  /** Padding of section 5.1.1: a one bit, zeros, and the 64-bit length in bits. */
  ghost function Pad(m: seq<byte>, bits: nat): (r: seq<byte>)
    ensures |r| == 64 * PadBlocks(|m|)
  {
    m + [0x80] + Zeros(PadZeros(|m|)) + BeBytes(bits, 8)
  }

  function DigestBytes(h: seq<word>): (r: seq<byte>)
    requires |h| == 8
    ensures |r| == 32
  {
    BeBytes(h[0], 4) + BeBytes(h[1], 4) + BeBytes(h[2], 4) + BeBytes(h[3], 4)
    + BeBytes(h[4], 4) + BeBytes(h[5], 4) + BeBytes(h[6], 4) + BeBytes(h[7], 4)
  }

  ghost function HashPadded(m: seq<byte>, bits: nat): (r: seq<byte>)
    ensures |r| == 32
  {
    TableSizes();
    DigestBytes(HashBlocks(H0, Pad(m, bits), PadBlocks(|m|)))
  }

  /** SHA-256 of section 6.2. */
  ghost function Hash(m: seq<byte>): (r: seq<byte>)
    ensures |r| == 32
  {
    HashPadded(m, 8 * |m|)
  }

  /** The digest the code computes when no single update is too long: it keeps the bit length in 32 bits. */
  ghost function Digest(m: seq<byte>): (r: seq<byte>)
    ensures |r| == 32
  {
    HashPadded(m, 8 * |m| % BASE)
  }

  lemma DigestIsHash(m: seq<byte>)
    requires |m| < 0x2000_0000
    ensures Digest(m) == Hash(m)
  {
    hide HashPadded;
  }

  /** Among the lengths the standard allows, the padding is the standard one exactly below 2^29 bytes. */
  lemma PaddingAgrees(m: seq<byte>)
    requires |m| < 0x2000_0000_0000_0000
    ensures Pad(m, 8 * |m| % BASE) == Pad(m, 8 * |m|) <==> |m| < 0x2000_0000
  {
    hide PadZeros, Zeros, BeBytes;
    if |m| >= 0x2000_0000 {
      var p, bits := m + [0x80] + Zeros(PadZeros(|m|)), 8 * |m|;
      assert BeBytes(bits, 8) != BeBytes(bits % BASE, 8) by {
        TwoPow64();
        BeValOfBytes(bits, 8);
        BeValOfBytes(bits % BASE, 8);
      }
      assert Pad(m, bits)[|p|..] == BeBytes(bits, 8) && Pad(m, bits % BASE)[|p|..] == BeBytes(bits % BASE, 8);
    }
  }

  lemma TwoPow64()
    ensures Pow(256, 8) == 0x1_0000_0000_0000_0000
  {
    PowerOf256(2);
    assert PowB(2) == BASE * PowB(1) && PowB(1) == BASE * PowB(0);
  }

  // The streaming implementation

  method Schedule(block: seq<byte>) returns (w: array<word>)
    requires |block| == 64
    ensures fresh(w) && w.Length == 64
    ensures forall t :: 0 <= t < 64 ==> w[t] == W(block, t)
  {
    hide SmallSigma0, SmallSigma1, BeWord, Add;
    w := new word[64];
    var j := 0;
    while j < 16
      invariant 0 <= j <= 16
      invariant forall t :: 0 <= t < j ==> w[t] == W(block, t)
    {
      w[j] := BeWord(block, 4 * j);
      j := j + 1;
    }
    while j < 64
      invariant 16 <= j <= 64
      invariant forall t :: 0 <= t < j ==> w[t] == W(block, t)
    {
      w[j] := Add(Add(Add(SmallSigma1(w[j - 2]), w[j - 7]), SmallSigma0(w[j - 15])), w[j - 16]);
      j := j + 1;
    }
  }

  method RunRounds(wv: array<word>, w: array<word>, ghost block: seq<byte>)
    requires |block| == 64 && wv.Length == 8 && w.Length == 64 && wv != w
    requires forall t :: 0 <= t < 64 ==> w[t] == W(block, t)
    modifies wv
    ensures |K| == 64 && ToState(wv[..]) == Rounds(ToState(old(wv[..])), block, |K|)
  {
    hide BigSigma0, BigSigma1, Ch, Maj, W, Add, K;
    TableSizes();
    ghost var s0 := ToState(wv[..]);
    var j := 0;
    while j < 64
      invariant 0 <= j <= 64
      invariant ToState(wv[..]) == Rounds(s0, block, j)
    {
      ghost var s := ToState(wv[..]);
      var t1 := Add(Add(Add(Add(wv[7], BigSigma1(wv[4])), Ch(wv[4], wv[5], wv[6])), K[j]), w[j]);
      var t2 := Add(BigSigma0(wv[0]), Maj(wv[0], wv[1], wv[2]));
      wv[7] := wv[6];
      wv[6] := wv[5];
      wv[5] := wv[4];
      wv[4] := Add(wv[3], t1);
      wv[3] := wv[2];
      wv[2] := wv[1];
      wv[1] := wv[0];
      wv[0] := Add(t1, t2);
      assert ToState(wv[..]) == Round(s, K[j], w[j]);
      j := j + 1;
    }
  }

  method CompressBlock(h: array<word>, sub_block: seq<byte>)
    requires h.Length == 8 && |sub_block| == 64
    modifies h
    ensures h[..] == Compress(old(h[..]), sub_block)
  {
    hide Rounds, W, Add;
    var w := Schedule(sub_block);
    var wv := new word[8](j requires 0 <= j < 8 reads h => h[j]);
    ghost var before := h[..];
    assert wv[..] == before;
    RunRounds(wv, w, sub_block);
    assert ToState(wv[..]) == Rounds(ToState(before), sub_block, |K|);
    ghost var after := wv[..];
    var j := 0;
    while j < 8
      invariant 0 <= j <= 8
      invariant wv[..] == after
      invariant forall t :: 0 <= t < j ==> h[t] == Add(before[t], wv[t])
      invariant forall t :: j <= t < 8 ==> h[t] == before[t]
    {
      h[j] := Add(h[j], wv[j]);
      j := j + 1;
    }
    assert h[..] == AddState(before, ToState(wv[..]));
  }

  /** How many blocks one call can reach: the offset of a block is a shift of a signed 32-bit number. */
  const MAX_BLOCKS: nat := 0x200_0000

  /** One update can hash this many bytes, buffered ones included, less one. */
  const UPDATE_LIMIT: nat := 64 * MAX_BLOCKS + 128

  /** Compresses block_nb blocks into h. The offset of a block beyond MAX_BLOCKS overflows, and any bytes are read. */
  method Transform(h: array<word>, message: seq<byte>, block_nb: nat)
    requires h.Length == 8 && 64 * block_nb <= |message|
    modifies h
    ensures block_nb <= MAX_BLOCKS ==> h[..] == HashBlocks(old(h[..]), message, block_nb)
  {
    hide Compress;
    ghost var h0 := h[..];
    var i := 0;
    while i < block_nb
      invariant 0 <= i <= block_nb
      invariant i <= MAX_BLOCKS ==> h[..] == HashBlocks(h0, message, i)
    {
      var stray: seq<byte> := *;
      var sub_block := if i < MAX_BLOCKS || |stray| != 64 then message[64 * i..64 * (i + 1)] else stray;
      CompressBlock(h, sub_block);
      i := i + 1;
    }
  }

  /** The unhashed tail of a message to which data is appended. */
  lemma TailGrows(m: seq<byte>, data: seq<byte>, n: nat, r: nat)
    requires n <= |m| && r <= |data|
    ensures (m + data)[n..] == m[n..] + data == m[n..] + data[..r] + data[r..]
    ensures (m + data)[..n] == m[..n]
  {
    assert data == data[..r] + data[r..];
  }

  /** Hashing the filled-up buffer and then whole blocks of data extends the fold over the message. */
  lemma FlushedHash(h: seq<word>, m: seq<byte>, n: nat, full: seq<byte>, more: seq<byte>, nb: nat)
    requires |h| == 8 && |full| == 64 && 64 * nb <= |more|
    requires |m| == 64 * (n + 1) + |more| && m[64 * n..] == full + more
    ensures HashBlocks(HashBlocks(HashBlocks(h, m, n), full, 1), more, nb) == HashBlocks(h, m, n + 1 + nb)
  {
    hide HashBlocks;
    var rest := m[64 * n..];
    assert rest[..64] == full == full[..64];
    HashBlocksPrefix(HashBlocks(h, m, n), full, rest, 1);
    HashBlocksConcat(h, m, n, 1);
    assert m[64 * (n + 1)..] == rest[64..] == more;
    HashBlocksConcat(h, m, n + 1, nb);
  }

  lemma FlushedTail(m: seq<byte>, n: nat, full: seq<byte>, more: seq<byte>, nb: nat)
    requires |full| == 64 && 64 * nb <= |more| && |m| == 64 * (n + 1) + |more| && m[64 * n..] == full + more
    ensures m[64 * (n + 1 + nb)..] == more[64 * nb..]
  {
    assert m[64 * n..][64..] == more;
    assert m[64 * (n + 1)..] == more;
  }

  class Context {
    const h: array<word>
    const block: array<byte>
    var size: nat
    var total_size: word
    ghost var msg: seq<byte>  // every byte given to Update since Init
    ghost var blocks: nat     // how many whole blocks of it are hashed

    ghost predicate Shaped()
      reads this
    {
      h.Length == 8 && block.Length == 128 && |H0| == 8 && size < 64
    }

    /** block[..size] is the unhashed tail of the message and h the fold over all blocks before it. */
    ghost predicate Valid()
      reads this, h, block
    {
      && Shaped() && |msg| == 64 * blocks + size
      && total_size == 64 * blocks % BASE
      && block[..size] == msg[64 * blocks..]
      && h[..] == HashBlocks(H0, msg, blocks)
    }

    constructor ()
      ensures Valid() && msg == [] && fresh(h) && fresh(block)
    {
      h := new word[8];
      block := new byte[128];
      size, total_size, msg, blocks := 0, 0, [], 0;
      new;
      Init();
    }

    method Init()
      requires h.Length == 8 && block.Length == 128
      modifies this, h
      ensures Valid() && msg == []
    {
      TableSizes();
      var i := 0;
      while i < 8
        invariant 0 <= i <= 8
        invariant forall j :: 0 <= j < i ==> h[j] == H0[j]
      {
        h[i] := H0[i];
        i := i + 1;
      }
      assert h[..] == H0;
      size, total_size, msg, blocks := 0, 0, [], 0;
    }

    /** memcpy into the block buffer. */
    method CopyIn(at: nat, data: seq<byte>)
      requires at + |data| <= block.Length
      modifies block
      ensures block[..at + |data|] == old(block[..at]) + data
    {
      forall i | 0 <= i < |data| {
        block[at + i] := data[i];
      }
    }

    /**
     * Absorbs data. The source adds the two sizes in 32 bits: when that sum wraps around, the call
     * only moves `size` and hashes nothing. From UPDATE_LIMIT up to there it reads outside the data.
     */
    method Update(data: seq<byte>)
      requires Valid() && |data| < BASE
      modifies this, h, block
      ensures Shaped()
      ensures old(size) + |data| < UPDATE_LIMIT ==> Valid() && msg == old(msg) + data
      ensures old(size) + |data| >= BASE ==>
                && size == old(size) + |data| - BASE
                && h[..] == old(h[..]) && total_size == old(total_size)
    {
      hide HashBlocks;
      var tmp_size := 64 - size;
      var rem_size := if |data| < tmp_size then |data| else tmp_size;
      ghost var tail, msg' := block[..size], msg + data;
      CopyIn(size, data[..rem_size]);
      HashBlocksPrefix(H0, msg, msg', blocks);
      TailGrows(msg, data, 64 * blocks, rem_size);
      if (size + |data|) % BASE < 64 {
        assert size + |data| < BASE ==> data[..rem_size] == data;
        size := (size + |data|) % BASE;
        msg := msg';
        return;
      }
      msg := msg';
      Flush(data[rem_size..]);
    }

    /** The buffer is full: hashes it and every whole block that follows, and keeps the rest. */
    method Flush(shifted_data: seq<byte>)
      requires h.Length == 8 && block.Length == 128 && |H0| == 8
      requires |msg| == 64 * (blocks + 1) + |shifted_data| && total_size == 64 * blocks % BASE
      requires msg[64 * blocks..] == block[..64] + shifted_data
      requires h[..] == HashBlocks(H0, msg, blocks)
      modifies this, h, block
      ensures Shaped() && (64 + |shifted_data| < UPDATE_LIMIT ==> Valid() && msg == old(msg))
    {
      hide HashBlocks;
      var new_size := |shifted_data|;
      var block_nb := new_size / 64;
      FlushedHash(H0, msg, blocks, block[..64], shifted_data, block_nb);
      FlushedTail(msg, blocks, block[..64], shifted_data, block_nb);
      Transform(h, block[..64], 1);
      Transform(h, shifted_data, block_nb);
      CopyIn(0, shifted_data[64 * block_nb..]);
      size := new_size % 64;
      WrappedTotal(blocks, block_nb + 1);
      total_size := (total_size + 64 * (block_nb + 1)) % BASE;
      blocks := blocks + 1 + block_nb;
    }

    /** Pads the buffered tail, hashes the last one or two blocks and writes the digest out. */
    method Finalize() returns (digest: seq<byte>)
      requires Shaped()
      modifies this, h, block
      ensures |digest| == 32
      ensures old(Valid()) ==> digest == Digest(old(msg))
    {
      hide HashBlocks, Pad, DigestBytes, PadBlocks, Zeros, BeBytes;
      var block_nb := 1 + if 64 - 9 < size % 64 then 1 else 0;
      var size_b: word := (total_size + size) % BASE * 8 % BASE;
      var pm_size := 64 * block_nb;
      ghost var valid := Valid();
      FillPadding(pm_size, size_b);
      if valid {
        FinalHash(msg, blocks, block[..pm_size], block_nb, total_size);
      }
      Transform(h, block[..pm_size], block_nb);
      digest := WriteDigest(h[..]);
    }

    method FillPadding(pm_size: nat, size_b: word)
      requires block.Length == 128 && size < 64 && (pm_size == 64 || pm_size == 128)
      requires size + 9 <= pm_size
      modifies block
      ensures block[..pm_size] == old(block[..size]) + [0x80] + Zeros(pm_size - size - 9) + BeBytes(size_b, 8)
    {
      ghost var tail := block[..size];
      var i := size;
      while i < pm_size
        invariant size <= i <= pm_size
        invariant block[..size] == tail
        invariant forall j :: size <= j < i ==> block[j] == 0
      {
        block[i] := 0;
        i := i + 1;
      }
      block[size] := 0x80;
      block[pm_size - 1] := size_b % 256;
      block[pm_size - 2] := size_b / 0x100 % 256;
      block[pm_size - 3] := size_b / 0x1_0000 % 256;
      block[pm_size - 4] := size_b / 0x100_0000;
      LengthField(size_b);
      hide BeBytes;
      assert block[..pm_size] == tail + [0x80] + Zeros(pm_size - size - 9) + BeBytes(size_b, 8);
    }
  }

  /** UNPACK32 of each word in turn. */
  method WriteDigest(h: seq<word>) returns (digest: seq<byte>)
    requires |h| == 8
    ensures digest == DigestBytes(h)
  {
    hide BeBytes, DigestBytes;
    digest := [];
    var i := 0;
    while i < 8
      invariant 0 <= i <= 8
      invariant digest == DigestBytes(h)[..4 * i]
    {
      var x := h[i];
      FourBytes(x);
      DigestPart(h, i);
      digest := digest + [x / 0x100_0000, x / 0x1_0000 % 256, x / 0x100 % 256, x % 256];
      i := i + 1;
    }
  }

  lemma DigestPart(h: seq<word>, i: nat)
    requires |h| == 8 && i < 8
    ensures DigestBytes(h)[4 * i..4 * i + 4] == BeBytes(h[i], 4)
    ensures DigestBytes(h)[..4 * (i + 1)] == DigestBytes(h)[..4 * i] + BeBytes(h[i], 4)
  {
    hide BeBytes;
    assert DigestBytes(h)[4 * i..4 * i + 4] == BeBytes(h[i], 4);
  }

  lemma FourBytes(x: word)
    ensures BeBytes(x, 4) == [x / 0x100_0000, x / 0x1_0000 % 256, x / 0x100 % 256, x % 256]
  {
    var y, z, w := Quarters(x);
    assert BeBytes(x, 4) == BeBytes(y, 3) + [x % 256];
    assert BeBytes(y, 3) == BeBytes(z, 2) + [y % 256];
    assert BeBytes(z, 2) == BeBytes(w, 1) + [z % 256];
    assert BeBytes(w, 1) == BeBytes(w / 256, 0) + [w % 256];
  }

  lemma LengthField(x: word)
    ensures BeBytes(x, 8) == [0, 0, 0, 0, x / 0x100_0000, x / 0x1_0000 % 256, x / 0x100 % 256, x % 256]
  {
    BeValOfBytes(x, 8) by { TwoPow64(); }
    FourBytes(x);
    LeadingZeros(BeBytes(x, 4));
    BeValOfBytes(x, 4) by { PowerOf256(1); assert PowB(1) == BASE * PowB(0); }
    BeBytesOfVal([0, 0, 0, 0] + BeBytes(x, 4));
  }

  lemma LeadingZeros(s: seq<byte>)
    requires |s| == 4
    ensures BeVal([0, 0, 0, 0] + s) == BeVal(s)
  {
    BeValZeros([0, 0, 0, 0]);
    BeValSame([0, 0, 0, 0], s);
  }

  lemma {:induction false} BeValZeros(z: seq<byte>)
    requires forall i :: 0 <= i < |z| ==> z[i] == 0
    ensures BeVal(z) == 0
  {
    if |z| > 0 { BeValZeros(z[..|z| - 1]); }
  }

  lemma {:induction false} BeValSame(z: seq<byte>, s: seq<byte>)
    requires BeVal(z) == 0
    ensures BeVal(z + s) == BeVal(s)
  {
    if |s| == 0 {
      assert z + s == z;
    } else {
      assert (z + s)[..|z + s| - 1] == z + s[..|s| - 1];
      BeValSame(z, s[..|s| - 1]);
    }
  }

  lemma WrappedTotal(blocks: nat, more: nat)
    ensures (64 * blocks % BASE + 64 * more) % BASE == 64 * (blocks + more) % BASE
  {
  }

  lemma BitLength(blocks: nat, size: nat)
    ensures (64 * blocks % BASE + size) % BASE * 8 % BASE == 8 * (64 * blocks + size) % BASE
  {
    var t := 64 * blocks;
    var k := t / BASE + (t % BASE + size) / BASE;
    assert (t % BASE + size) % BASE == t + size - k * BASE;
    ModBase(8 * (t + size), 8 * k);
  }

  lemma ModBase(x: int, k: int)
    ensures (x - k * BASE) % BASE == x % BASE
  {
    DivModUnique(x - k * BASE, BASE, x / BASE - k, x % BASE);
  }

  lemma LastBlocks(blocks: nat, size: nat)
    requires size < 64
    ensures PadBlocks(64 * blocks + size) == blocks + 1 + if 55 < size % 64 then 1 else 0
  {
  }

  /** The padded buffer is the padded message from its last whole block on. */
  lemma PaddedTail(msg: seq<byte>, blocks: nat, last: seq<byte>, bits: nat)
    requires 64 * blocks <= |msg| < 64 * (blocks + 1)
    requires |last| == 64 * (PadBlocks(|msg|) - blocks)
    requires last == msg[64 * blocks..] + [0x80] + Zeros(|last| - (|msg| - 64 * blocks) - 9) + BeBytes(bits, 8)
    ensures Pad(msg, bits)[64 * blocks..] == last
  {
    hide BeBytes, Zeros;
  }

  lemma PaddedHash(h: seq<word>, msg: seq<byte>, blocks: nat, last: seq<byte>, bits: nat)
    requires |h| == 8 && 64 * blocks <= |msg| < 64 * (blocks + 1)
    requires |last| == 64 * (PadBlocks(|msg|) - blocks)
    requires Pad(msg, bits)[64 * blocks..] == last
    ensures HashBlocks(HashBlocks(h, msg, blocks), last, PadBlocks(|msg|) - blocks)
              == HashBlocks(h, Pad(msg, bits), PadBlocks(|msg|))
  {
    hide HashBlocks, BeBytes, Zeros;
    var p := Pad(msg, bits);
    assert msg[..64 * blocks] == p[..64 * blocks];
    HashBlocksPrefix(h, msg, p, blocks);
    HashBlocksConcat(h, p, blocks, PadBlocks(|msg|) - blocks);
  }

  /** Hashing the padded buffer after all whole blocks is hashing the padded message. */
  lemma FinalHash(msg: seq<byte>, blocks: nat, last: seq<byte>, nb: nat, total: word)
    requires |H0| == 8 && 64 * blocks <= |msg| < 64 * (blocks + 1) && total == 64 * blocks % BASE
    requires var size := |msg| - 64 * blocks;
             && nb == 1 + (if 55 < size % 64 then 1 else 0) && |last| == 64 * nb
             && last == msg[64 * blocks..] + [0x80] + Zeros(64 * nb - size - 9)
                        + BeBytes((total + size) % BASE * 8 % BASE, 8)
    ensures HashBlocks(HashBlocks(H0, msg, blocks), last, nb)
              == HashBlocks(H0, Pad(msg, 8 * |msg| % BASE), PadBlocks(|msg|))
  {
    hide HashBlocks, Pad, PadBlocks, Zeros, BeBytes;
    var size := |msg| - 64 * blocks;
    BitLength(blocks, size);
    LastBlocks(blocks, size);
    PaddedTail(msg, blocks, last, 8 * |msg| % BASE);
    PaddedHash(H0, msg, blocks, last, 8 * |msg| % BASE);
  }

  /** Hashes a buffer. Its size is cut to 32 bits on the way, and beyond the limit of one update nothing is promised. */
  method BdbSha256(buf: seq<byte>) returns (digest: seq<byte>)
    ensures |buf| % BASE < UPDATE_LIMIT ==> digest == Digest(buf[..|buf| % BASE])
  {
    hide Digest, Context.Valid;
    var size := |buf| % BASE;
    assert size < BASE && size <= |buf|;
    var data := buf[..size];
    var ctx := new Context();
    ctx.Update(data);
    assert [] + data == data;
    digest := ctx.Finalize();
  }

  function Flatten(chunks: seq<seq<byte>>): seq<byte>
  {
    if |chunks| == 0 then [] else Flatten(chunks[..|chunks| - 1]) + chunks[|chunks| - 1]
  }

  lemma {:induction false} ChunkSize(chunks: seq<seq<byte>>, i: nat)
    requires i < |chunks|
    ensures Flatten(chunks[..i + 1]) == Flatten(chunks[..i]) + chunks[i]
    ensures |Flatten(chunks[..i + 1])| <= |Flatten(chunks)|
    decreases |chunks|
  {
    assert chunks[..i + 1][..i] == chunks[..i];
    if i + 1 < |chunks| {
      var front := chunks[..|chunks| - 1];
      ChunkSize(front, i);
      assert front[..i + 1] == chunks[..i + 1];
    } else {
      assert chunks[..i + 1] == chunks;
    }
  }

  /** Every way of splitting a message into updates gives the standard hash of the whole. */
  method HashChunks(chunks: seq<seq<byte>>) returns (digest: seq<byte>)
    requires |Flatten(chunks)| < 0x2000_0000
    ensures digest == Hash(Flatten(chunks))
  {
    hide Hash, Digest;
    var ctx := new Context();
    var i := 0;
    while i < |chunks|
      invariant 0 <= i <= |chunks|
      invariant ctx.Valid() && fresh(ctx) && fresh(ctx.h) && fresh(ctx.block)
      invariant ctx.msg == Flatten(chunks[..i])
    {
      ChunkSize(chunks, i);
      ctx.Update(chunks[i]);
      i := i + 1;
    }
    assert chunks[..i] == chunks;
    DigestIsHash(Flatten(chunks));
    digest := ctx.Finalize();
  }
}
