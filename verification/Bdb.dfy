/** The boot descriptor block: its structures, its checks and its verification. */
module Bdb {
  import opened Words

  const SUCCESS: int := 0
  const GOOD_OTHER_THAN_KEY: int := 1
  const ERROR_BUF_SIZE: int := 101
  const ERROR_STRUCT_MAGIC: int := 102
  const ERROR_STRUCT_VERSION: int := 103
  const ERROR_STRUCT_SIZE: int := 104
  const ERROR_SIGNED_SIZE: int := 105
  const ERROR_BDB_SIZE: int := 106
  const ERROR_OEM_AREA_SIZE: int := 107
  const ERROR_HASH_ENTRY_SIZE: int := 108
  const ERROR_HASH_ALG: int := 109
  const ERROR_SIG_ALG: int := 110
  const ERROR_DESCRIPTION: int := 111
  const ERROR_HEADER: int := 112
  const ERROR_BDBKEY: int := 113
  const ERROR_OEM_AREA_0: int := 114
  const ERROR_SUBKEY: int := 115
  const ERROR_BDB_SIGNED_SIZE: int := 116
  const ERROR_HEADER_SIG: int := 117
  const ERROR_DATA: int := 118
  const ERROR_DATA_SIG: int := 119
  const ERROR_VERIFY_SIG: int := 121

  const HEADER_MAGIC: int := 0x30426442
  const KEY_MAGIC: int := 0x73334256
  const SIG_MAGIC: int := 0x6b334256
  const DATA_MAGIC: int := 0x31426442
  const HEADER_SIZE: nat := 36
  const KEY_SIZE: nat := 144
  const SIG_SIZE: nat := 144
  const DATA_SIZE: nat := 160
  const HASH_SIZE: nat := 56
  const HASH_ALG_SHA256: int := 2
  const ALG_RSA4096: int := 3
  const ALG_ECDSA521: int := 5
  const ALG_RSA3072B: int := 7

  // Little-endian fields

  function U8(s: seq<byte>, o: nat): int
    requires o < |s|
  {
    s[o]
  }

  function U16(s: seq<byte>, o: nat): nat
    requires o + 2 <= |s|
  {
    U8(s, o) + 256 * U8(s, o + 1)
  }

  /** Fields of a structure are the same in any longer buffer that starts with it. */
  lemma FieldsOfPrefix(s: seq<byte>, n: nat)
    requires n <= |s|
    ensures forall o :: 0 <= o < n ==> U8(s[..n], o) == U8(s, o)
    ensures forall o :: 0 <= o && o + 2 <= n ==> U16(s[..n], o) == U16(s, o)
    ensures forall o :: 0 <= o && o + 4 <= n ==> LeWord(s[..n], o) == LeWord(s, o)
  {
  }

  method StringHasNull(s: seq<byte>) returns (r: bool)
    ensures r <==> 0 in s
  {
    var i := 0;
    while i < |s|
      invariant 0 <= i <= |s| && 0 !in s[..i]
    {
      if s[i] == 0 { return true; }
      i := i + 1;
    }
    return false;
  }

  /** Sizes the two variable parts must have for a signature algorithm; none for an unknown one. */
  predicate KnownAlg(alg: int) { alg == ALG_RSA4096 || alg == ALG_ECDSA521 || alg == ALG_RSA3072B }

  function KeyDataSize(alg: int): nat
  {
    if alg == ALG_RSA4096 then 1032 else if alg == ALG_ECDSA521 then 132 else 776
  }

  function SigDataSize(alg: int): nat
  {
    if alg == ALG_RSA4096 then 512 else if alg == ALG_ECDSA521 then 132 else 384
  }

  // Checks. The argument is the buffer from the structure on, so its length is the size parameter.

  function CheckHeader(s: seq<byte>): int
  {
    if |s| < HEADER_SIZE || |s| < U16(s, 6) then ERROR_BUF_SIZE
    else if LeWord(s, 0) != HEADER_MAGIC then ERROR_STRUCT_MAGIC
    else if U8(s, 4) != 1 then ERROR_STRUCT_VERSION
    else if U16(s, 6) < HEADER_SIZE then ERROR_STRUCT_SIZE
    else if LeWord(s, 24) % 4 != 0 then ERROR_OEM_AREA_SIZE
    else if LeWord(s, 16) < HEADER_SIZE then ERROR_BDB_SIZE
    else SUCCESS
  }

  function CheckKey(s: seq<byte>): int
  {
    if |s| < KEY_SIZE || |s| < U16(s, 6) then ERROR_BUF_SIZE
    else if LeWord(s, 0) != KEY_MAGIC then ERROR_STRUCT_MAGIC
    else if U8(s, 4) != 1 then ERROR_STRUCT_VERSION
    else if 0 !in s[16..144] then ERROR_DESCRIPTION
    else if U8(s, 8) != HASH_ALG_SHA256 then ERROR_HASH_ALG
    else if !KnownAlg(U8(s, 9)) then ERROR_SIG_ALG
    else if U16(s, 6) < KEY_SIZE + KeyDataSize(U8(s, 9)) then ERROR_STRUCT_SIZE
    else SUCCESS
  }

  function CheckSig(s: seq<byte>): int
  {
    if |s| < SIG_SIZE || |s| < U16(s, 6) then ERROR_BUF_SIZE
    else if LeWord(s, 0) != SIG_MAGIC then ERROR_STRUCT_MAGIC
    else if U8(s, 4) != 1 then ERROR_STRUCT_VERSION
    else if 0 !in s[16..144] then ERROR_DESCRIPTION
    else if U8(s, 8) != HASH_ALG_SHA256 then ERROR_HASH_ALG
    else if !KnownAlg(U8(s, 9)) then ERROR_SIG_ALG
    else if U16(s, 6) < SIG_SIZE + SigDataSize(U8(s, 9)) then ERROR_STRUCT_SIZE
    else SUCCESS
  }

  function CheckData(s: seq<byte>): int
  {
    if |s| < DATA_SIZE || |s| < LeWord(s, 20) then ERROR_BUF_SIZE
    else if LeWord(s, 0) != DATA_MAGIC then ERROR_STRUCT_MAGIC
    else if U8(s, 4) != 1 then ERROR_STRUCT_VERSION
    else if 0 !in s[32..160] then ERROR_DESCRIPTION
    else if U16(s, 6) < DATA_SIZE then ERROR_STRUCT_SIZE
    else if U8(s, 17) < HASH_SIZE then ERROR_HASH_ENTRY_SIZE
    else
      var need_size := U16(s, 6) + U8(s, 16) * U8(s, 17);
      if need_size + LeWord(s, 12) < need_size then ERROR_OEM_AREA_SIZE
      else if LeWord(s, 12) % 4 != 0 then ERROR_OEM_AREA_SIZE
      else if LeWord(s, 20) < need_size + LeWord(s, 12) then ERROR_SIGNED_SIZE
      else SUCCESS
  }

  // Cryptography is provided by the caller: a hash, and one signature check per algorithm.

  type SigCheck = (seq<byte>, seq<byte>, seq<byte>) -> bool

  datatype Crypto = Crypto(
    hash: seq<byte> -> seq<byte>,
    rsa4096: SigCheck, ecdsa521: SigCheck, rsa3072b: SigCheck)
  {
    function Check(alg: int): SigCheck
    {
      if alg == ALG_RSA4096 then rsa4096 else if alg == ALG_ECDSA521 then ecdsa521 else rsa3072b
    }
  }

  function KeyData(k: seq<byte>): seq<byte>
    requires |k| >= KEY_SIZE && |k| >= KEY_SIZE + KeyDataSize(U8(k, 9))
  {
    k[KEY_SIZE..KEY_SIZE + KeyDataSize(U8(k, 9))]
  }

  function SigData(s: seq<byte>): seq<byte>
    requires |s| >= SIG_SIZE && |s| >= SIG_SIZE + SigDataSize(U8(s, 9))
  {
    s[SIG_SIZE..SIG_SIZE + SigDataSize(U8(s, 9))]
  }

  /** Checks a signature structure against a key structure; both have passed their own checks. */
  function VerifySig(c: Crypto, key: seq<byte>, sig: seq<byte>, digest: seq<byte>): int
    requires CheckKey(key) == SUCCESS && CheckSig(sig) == SUCCESS
  {
    if U8(key, 9) != U8(sig, 9) then ERROR_SIG_ALG
    else if c.Check(U8(key, 9))(KeyData(key), SigData(sig), digest) then SUCCESS
    else ERROR_VERIFY_SIG
  }

  /**
   * Verifies a whole buffer. Every slice below starts where the previous structure ends, so Dafny's
   * bounds checks are the statement that no read leaves the buffer.
   */
  function Verify(c: Crypto, buf: seq<byte>, bdb_key_digest: seq<byte>): int
  {
    if CheckHeader(buf) != SUCCESS then ERROR_HEADER else
    var bdbkey := buf[U16(buf, 6)..];
    if CheckKey(bdbkey) != SUCCESS then ERROR_BDBKEY else
    var mismatch := c.hash(bdbkey[..U16(bdbkey, 6)]) != bdb_key_digest;
    VerifySigned(c, LeWord(buf, 24), LeWord(buf, 20), bdbkey, bdbkey[U16(bdbkey, 6)..], mismatch)
  }

  /** The part the BDB key signs; oem_size and signed_size come from the header. */
  function VerifySigned(c: Crypto, oem_size: nat, signed_size: nat, bdbkey: seq<byte>, oem: seq<byte>, mismatch: bool): int
    requires CheckKey(bdbkey) == SUCCESS
  {
    if oem_size > |oem| then ERROR_OEM_AREA_0 else
    var subkey := oem[oem_size..];
    if CheckKey(subkey) != SUCCESS then ERROR_SUBKEY else
    if (oem_size + U16(subkey, 6)) % BASE > signed_size || signed_size > |oem| then ERROR_BDB_SIGNED_SIZE else
    var sig := oem[signed_size..];
    if CheckSig(sig) != SUCCESS then ERROR_HEADER_SIG else
    if LeWord(sig, 12) != signed_size then ERROR_HEADER_SIG else
    if VerifySig(c, bdbkey, sig, c.hash(oem[..signed_size])) != SUCCESS then ERROR_HEADER_SIG else
    VerifyData(c, subkey, sig[U16(sig, 6)..], mismatch)
  }

  /** The second half, from the data structure on. */
  function VerifyData(c: Crypto, subkey: seq<byte>, data: seq<byte>, mismatch: bool): int
    requires CheckKey(subkey) == SUCCESS
  {
    if CheckData(data) != SUCCESS then ERROR_DATA else
    var sig := data[LeWord(data, 20)..];
    if CheckSig(sig) != SUCCESS then ERROR_DATA_SIG else
    if LeWord(sig, 12) != LeWord(data, 20) then ERROR_DATA_SIG else
    if VerifySig(c, subkey, sig, c.hash(data[..LeWord(data, 20)])) != SUCCESS then ERROR_DATA_SIG else
    if mismatch then GOOD_OTHER_THAN_KEY else SUCCESS
  }

  // The same format, read as a grammar

  datatype Parts = Parts(
    header: seq<byte>, bdbkey: seq<byte>, oem0: seq<byte>, subkey: seq<byte>, extra0: seq<byte>, headerSig: seq<byte>,
    data: seq<byte>, oem1: seq<byte>, hashes: seq<byte>, extra1: seq<byte>, dataSig: seq<byte>, rest: seq<byte>)
  {
    function Signed0(): seq<byte> { oem0 + subkey + extra0 }
    function Signed1(): seq<byte> { data + oem1 + hashes + extra1 }
    function Bytes(): seq<byte> { header + (bdbkey + (Signed0() + (headerSig + (Signed1() + (dataSig + rest))))) }
  }

  ghost predicate IsKey(k: seq<byte>)
  {
    && |k| >= KEY_SIZE && U16(k, 6) == |k|
    && LeWord(k, 0) == KEY_MAGIC && U8(k, 4) == 1
    && 0 in k[16..144]
    && U8(k, 8) == HASH_ALG_SHA256 && KnownAlg(U8(k, 9))
    && |k| >= KEY_SIZE + KeyDataSize(U8(k, 9))
  }

  ghost predicate IsSig(s: seq<byte>)
  {
    && |s| >= SIG_SIZE && U16(s, 6) == |s|
    && LeWord(s, 0) == SIG_MAGIC && U8(s, 4) == 1
    && 0 in s[16..144]
    && U8(s, 8) == HASH_ALG_SHA256 && KnownAlg(U8(s, 9))
    && |s| >= SIG_SIZE + SigDataSize(U8(s, 9))
  }

  /** sig is a valid signature by key of the given bytes. */
  ghost predicate Signs(c: Crypto, key: seq<byte>, sig: seq<byte>, signed: seq<byte>)
    requires IsKey(key) && IsSig(sig)
  {
    && LeWord(sig, 12) == |signed|
    && U8(sig, 9) == U8(key, 9)
    && c.Check(U8(key, 9))(KeyData(key), SigData(sig), c.hash(signed))
  }

  ghost predicate IsHeaderOf(p: Parts)
  {
    var h := p.header;
    && |h| >= HEADER_SIZE && U16(h, 6) == |h|
    && LeWord(h, 0) == HEADER_MAGIC && U8(h, 4) == 1
    && LeWord(h, 16) >= HEADER_SIZE
    && LeWord(h, 20) == |p.Signed0()|
    && LeWord(h, 24) == |p.oem0| && |p.oem0| % 4 == 0
  }

  ghost predicate IsDataOf(p: Parts)
  {
    var d := p.data;
    && |d| >= DATA_SIZE && U16(d, 6) == |d|
    && LeWord(d, 0) == DATA_MAGIC && U8(d, 4) == 1
    && 0 in d[32..160]
    && LeWord(d, 12) == |p.oem1| && |p.oem1| % 4 == 0
    && U8(d, 17) >= HASH_SIZE && |p.hashes| == U8(d, 16) * U8(d, 17)
    && LeWord(d, 20) == |p.Signed1()|
  }

  /** The parts up to the header signature are well-formed and fit together. */
  ghost predicate FirstHalf(p: Parts)
  {
    IsHeaderOf(p) && IsKey(p.bdbkey) && IsKey(p.subkey) && IsSig(p.headerSig)
  }

  ghost predicate SecondHalf(p: Parts)
  {
    IsDataOf(p) && IsSig(p.dataSig)
  }

  /** The format without its cryptography. */
  ghost predicate Layout(p: Parts)
  {
    FirstHalf(p) && SecondHalf(p)
  }

  /** A well-formed, correctly signed block, cut into its parts. */
  ghost predicate Block(c: Crypto, p: Parts)
  {
    && Layout(p)
    && Signs(c, p.bdbkey, p.headerSig, p.Signed0())
    && Signs(c, p.subkey, p.dataSig, p.Signed1())
  }
}
