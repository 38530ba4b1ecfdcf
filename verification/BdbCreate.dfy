/** Building keys, signatures and whole blocks, and that what is built verifies. */
module BdbCreate {
  import opened Words
  import opened Bdb
  import opened BdbGrammar
  import opened BdbAccess

  /** What strzcpy leaves in a field: as much of the string as fits before a final null. */
  function Strz(src: seq<byte>, size: nat): (s: seq<byte>)
    requires size > 0
    ensures |s| == size && 0 in s
  {
    var n := if |src| < size then |src| else size - 1;
    var s := src[..n] + Zeros(size - n);
    assert s[size - 1] == 0;
    s
  }

  /** A description field: the optional string, or zeros. */
  function Described(desc: Option<seq<byte>>): (s: seq<byte>)
    ensures |s| == 128 && 0 in s
  {
    match desc
    case Some(src) => Strz(src, 128)
    case None => var s := Zeros(128); assert s[0] == 0; s
  }

  /** A 128-byte field that shows a description: its first 127 bytes, then zeros; all zeros without one. */
  predicate Shows(field: seq<byte>, desc: Option<seq<byte>>)
  {
    |field| == 128
    && match desc
       case Some(text) => forall j :: 0 <= j < 128 ==> field[j] == if j < 127 && j < |text| then text[j] else 0
       case None => forall j :: 0 <= j < 128 ==> field[j] == 0
  }

  lemma DescribedShows(desc: Option<seq<byte>>)
    ensures Shows(Described(desc), desc)
  {
  }

  /** The common layout of keys and signatures: 144 bytes, then the payload. */
  function Struct144(magic: word, alg: byte, field: word, desc: Option<seq<byte>>, payload: seq<byte>): (s: seq<byte>)
    ensures |s| == 144 + |payload|
  {
    Head144(magic, 144 + |payload|, alg, field) + Described(desc) + payload
  }

  /** The fields before the description. */
  function Head144(magic: word, size: nat, alg: byte, field: word): (s: seq<byte>)
    ensures |s| == 16
  {
    LeBytes(magic, 4) + [1, 0] + LeBytes(size, 2) + [2, alg, 0, 0] + LeBytes(field, 4)
  }

  function HeaderStruct(load_address: Address, bdb_size: nat, signed_size: nat, oem_size: nat): (s: seq<byte>)
    ensures |s| == HEADER_SIZE
  {
    LeBytes(HEADER_MAGIC, 4) + [1, 0] + LeBytes(HEADER_SIZE, 2) + LeBytes(load_address, 8)
    + LeBytes(bdb_size, 4) + LeBytes(signed_size, 4) + LeBytes(oem_size, 4) + Zeros(8)
  }

  function DataStruct(version: word, oem_size: nat, n: byte, signed_size: nat, desc: Option<seq<byte>>): (s: seq<byte>)
    ensures |s| == DATA_SIZE
  {
    DataHead(version, oem_size, n, signed_size) + Described(desc)
  }

  function DataHead(version: word, oem_size: nat, n: byte, signed_size: nat): (s: seq<byte>)
    ensures |s| == 32
  {
    LeBytes(DATA_MAGIC, 4) + [1, 0] + LeBytes(DATA_SIZE, 2) + LeBytes(version, 4) + LeBytes(oem_size, 4)
    + [n, 56, 0, 0] + LeBytes(signed_size, 4) + Zeros(8)
  }

  // Reading back what was written

  lemma ReadU16(a: seq<byte>, x: nat, b: seq<byte>)
    requires x < 0x1_0000
    ensures U16(a + LeBytes(x, 2) + b, |a|) == x
  {
    var f := LeBytes(x, 2);
    assert f == [x % 256] + LeBytes(x / 256, 1);
    assert LeBytes(x / 256, 1) == [x / 256 % 256] + LeBytes(x / 256 / 256, 0);
    var s := a + f + b;
    assert s[|a|] == f[0] && s[|a| + 1] == f[1];
  }

  lemma Struct144Fields(magic: word, alg: byte, field: word, desc: Option<seq<byte>>, payload: seq<byte>)
    requires |payload| < 0x1_0000 - 144
    ensures var s := Struct144(magic, alg, field, desc, payload);
            && LeWord(s, 0) == magic && U8(s, 4) == 1 && U16(s, 6) == |s| && U8(s, 8) == 2 && U8(s, 9) == alg
            && LeWord(s, 12) == field && 0 in s[16..144] && s[144..] == payload
            && U8(s, 5) == U8(s, 10) == U8(s, 11) == 0 && Shows(s[16..144], desc)
  {
    hide LeBytes, Described, U16, LeWord, Shows;
    DescribedShows(desc);
    var s := Struct144(magic, alg, field, desc, payload);
    var m, z, f, d := LeBytes(magic, 4), LeBytes(144 + |payload|, 2), LeBytes(field, 4), Described(desc);
    ReadWord([], magic, [1, 0] + z + [2, alg, 0, 0] + f + d + payload);
    assert s == [] + m + ([1, 0] + z + [2, alg, 0, 0] + f + d + payload);
    ReadU16(m + [1, 0], 144 + |payload|, [2, alg, 0, 0] + f + d + payload);
    assert s == (m + [1, 0]) + z + ([2, alg, 0, 0] + f + d + payload);
    Struct144Word(magic, alg, field, desc, payload);
    assert s[16..144] == d;
  }

  lemma Struct144Word(magic: word, alg: byte, field: word, desc: Option<seq<byte>>, payload: seq<byte>)
    requires |payload| < 0x1_0000 - 144
    ensures LeWord(Struct144(magic, alg, field, desc, payload), 12) == field
  {
    hide LeBytes, Described, LeWord;
    var h := LeBytes(magic, 4) + [1, 0] + LeBytes(144 + |payload|, 2) + [2, alg, 0, 0];
    ReadWord(h, field, Described(desc) + payload);
    assert Struct144(magic, alg, field, desc, payload) == h + LeBytes(field, 4) + (Described(desc) + payload);
  }

  lemma HeaderFields(load_address: Address, bdb_size: nat, signed_size: nat, oem_size: nat)
    requires bdb_size < BASE && signed_size < BASE && oem_size < BASE
    ensures var s := HeaderStruct(load_address, bdb_size, signed_size, oem_size);
            && LeWord(s, 0) == HEADER_MAGIC && U8(s, 4) == 1 && U16(s, 6) == HEADER_SIZE
            && LeWord(s, 16) == bdb_size && LeWord(s, 20) == signed_size && LeWord(s, 24) == oem_size
            && U8(s, 5) == 0 && LeLong(s, 8) == load_address && s[28..36] == Zeros(8)
  {
    hide LeBytes, U16, LeWord, LeLong;
    var s := HeaderStruct(load_address, bdb_size, signed_size, oem_size);
    var m, z, l := LeBytes(HEADER_MAGIC, 4), LeBytes(HEADER_SIZE, 2), LeBytes(load_address, 8);
    var b, g, o := LeBytes(bdb_size, 4), LeBytes(signed_size, 4), LeBytes(oem_size, 4);
    ReadWord([], HEADER_MAGIC, [1, 0] + z + l + b + g + o + Zeros(8));
    assert s == [] + m + ([1, 0] + z + l + b + g + o + Zeros(8));
    ReadU16(m + [1, 0], HEADER_SIZE, l + b + g + o + Zeros(8));
    assert s == (m + [1, 0]) + z + (l + b + g + o + Zeros(8));
    ReadLong(m + [1, 0] + z, load_address, b + g + o + Zeros(8));
    assert s == (m + [1, 0] + z) + l + (b + g + o + Zeros(8));
    ReadWord(m + [1, 0] + z + l, bdb_size, g + o + Zeros(8));
    assert s == (m + [1, 0] + z + l) + b + (g + o + Zeros(8));
    ReadWord(m + [1, 0] + z + l + b, signed_size, o + Zeros(8));
    assert s == (m + [1, 0] + z + l + b) + g + (o + Zeros(8));
    ReadWord(m + [1, 0] + z + l + b + g, oem_size, Zeros(8));
    assert s == (m + [1, 0] + z + l + b + g) + o + Zeros(8);
  }

  lemma DataWords(version: word, oem_size: nat, n: byte, signed_size: nat, desc: Option<seq<byte>>)
    requires oem_size < BASE && signed_size < BASE
    ensures var s := DataStruct(version, oem_size, n, signed_size, desc);
            LeWord(s, 8) == version && LeWord(s, 12) == oem_size && LeWord(s, 20) == signed_size
  {
    hide LeBytes, Described, LeWord;
    var s := DataStruct(version, oem_size, n, signed_size, desc);
    var v, o, g, d := LeBytes(version, 4), LeBytes(oem_size, 4), LeBytes(signed_size, 4), Described(desc);
    var h := LeBytes(DATA_MAGIC, 4) + [1, 0] + LeBytes(DATA_SIZE, 2);
    var q: seq<byte> := [n, 56, 0, 0];
    ReadWord(h, version, o + q + g + Zeros(8) + d);
    assert s == h + v + (o + q + g + Zeros(8) + d);
    ReadWord(h + v, oem_size, q + g + Zeros(8) + d);
    assert s == (h + v) + o + (q + g + Zeros(8) + d);
    ReadWord(h + v + o + q, signed_size, Zeros(8) + d);
    assert s == (h + v + o + q) + g + (Zeros(8) + d);
  }

  lemma DataStructFields(version: word, oem_size: nat, n: byte, signed_size: nat, desc: Option<seq<byte>>)
    requires oem_size < BASE && signed_size < BASE
    ensures var s := DataStruct(version, oem_size, n, signed_size, desc);
            && LeWord(s, 0) == DATA_MAGIC && U8(s, 4) == 1 && U16(s, 6) == DATA_SIZE
            && LeWord(s, 12) == oem_size && U8(s, 16) == n && U8(s, 17) == 56 && LeWord(s, 20) == signed_size
            && 0 in s[32..160]
            && U8(s, 5) == U8(s, 18) == U8(s, 19) == 0 && LeWord(s, 8) == version
            && s[24..32] == Zeros(8) && Shows(s[32..160], desc)
  {
    hide LeBytes, Described, U16, LeWord, Shows;
    DescribedShows(desc);
    var s := DataStruct(version, oem_size, n, signed_size, desc);
    var m, z, v := LeBytes(DATA_MAGIC, 4), LeBytes(DATA_SIZE, 2), LeBytes(version, 4);
    var o, g, d := LeBytes(oem_size, 4), LeBytes(signed_size, 4), Described(desc);
    var q: seq<byte> := [n, 56, 0, 0];
    ReadWord([], DATA_MAGIC, [1, 0] + z + v + o + q + g + Zeros(8) + d);
    assert s == [] + m + ([1, 0] + z + v + o + q + g + Zeros(8) + d);
    ReadU16(m + [1, 0], DATA_SIZE, v + o + q + g + Zeros(8) + d);
    assert s == (m + [1, 0]) + z + (v + o + q + g + Zeros(8) + d);
    DataWords(version, oem_size, n, signed_size, desc);
    assert s[32..160] == d;
  }

  // Writing into a zeroed buffer through an advancing position

  /** The buffer holds `done` and is still zero after it. */
  ghost predicate Filled(buf: array<byte>, done: seq<byte>)
    reads buf
  {
    |done| <= buf.Length && buf[..|done|] == done && forall j :: |done| <= j < buf.Length ==> buf[j] == 0
  }

  /** memcpy at the position bnext; base and done are what was written before. */
  method Emit(buf: array<byte>, bnext: nat, bytes: seq<byte>, ghost base: seq<byte>, ghost done: seq<byte>)
    returns (next: nat)
    requires Filled(buf, base + done) && bnext == |base| + |done| && bnext + |bytes| <= buf.Length
    modifies buf
    ensures next == bnext + |bytes| && Filled(buf, base + (done + bytes))
  {
    forall i | 0 <= i < |bytes| {
      buf[bnext + i] := bytes[i];
    }
    next := bnext + |bytes|;
    assert buf[..next] == (base + done) + bytes;
    assert (base + done) + bytes == base + (done + bytes);
  }

  /** Leaves n reserved bytes zero. */
  method Skip(buf: array<byte>, bnext: nat, n: nat, ghost base: seq<byte>, ghost done: seq<byte>) returns (next: nat)
    requires Filled(buf, base + done) && bnext == |base| + |done| && bnext + n <= buf.Length
    ensures next == bnext + n && Filled(buf, base + (done + Zeros(n)))
  {
    next := bnext + n;
    assert buf[..next] == (base + done) + Zeros(n);
    assert (base + done) + Zeros(n) == base + (done + Zeros(n));
  }

  /** strncpy, then a null in the last byte of the field. */
  method Strzcpy(buf: array<byte>, at: nat, src: seq<byte>, size: nat, ghost base: seq<byte>, ghost done: seq<byte>)
    returns (next: nat)
    requires Filled(buf, base + done) && at == |base| + |done| && size > 0 && at + size <= buf.Length
    modifies buf
    ensures next == at + size && Filled(buf, base + (done + Strz(src, size)))
  {
    var i := 0;
    while i < size
      invariant 0 <= i <= size
      invariant buf[..at] == base + done && forall j :: at + i <= j < buf.Length ==> buf[j] == 0
      invariant forall j :: at <= j < at + i ==> buf[j] == if j - at < |src| then src[j - at] else 0
    {
      buf[at + i] := if i < |src| then src[i] else 0;
      i := i + 1;
    }
    buf[at + size - 1] := 0;
    next := at + size;
    ghost var field := Strz(src, size);
    assert forall j :: at <= j < next ==> buf[j] == field[j - at];
    assert buf[..next] == (base + done) + field;
    assert (base + done) + field == base + (done + field);
  }

  method EmitDescription(buf: array<byte>, at: nat, desc: Option<seq<byte>>, ghost base: seq<byte>, ghost done: seq<byte>)
    returns (next: nat)
    requires Filled(buf, base + done) && at == |base| + |done| && at + 128 <= buf.Length
    modifies buf
    ensures next == at + 128 && Filled(buf, base + (done + Described(desc)))
  {
    match desc {
      case Some(src) => next := Strzcpy(buf, at, src, 128, base, done);
      case None => next := Skip(buf, at, 128, base, done);
    }
  }

  /** Fills a freshly zeroed buffer with a key or signature structure. */
  method FillStruct144(magic: word, alg: byte, field: word, desc: Option<seq<byte>>, payload: seq<byte>)
    returns (buf: array<byte>)
    requires |payload| < 0x1_0000 - 144
    ensures fresh(buf) && buf[..] == Struct144(magic, alg, field, desc, payload)
  {
    hide Described, Filled, Head144;
    buf := new byte[144 + |payload|](_ => 0);
    EmptyFilled(buf);
    var front := Head144(magic, 144 + |payload|, alg, field);
    assert [] + [] + front == front && front + [] == front;
    var at := Emit(buf, 0, front, [], []);
    at := EmitDescription(buf, at, desc, front, []);
    assert front + ([] + Described(desc)) == front + Described(desc);
    at := Emit(buf, at, payload, front, Described(desc));
    var s := Struct144(magic, alg, field, desc, payload);
    assert front + (Described(desc) + payload) == s;
    AllFilled(buf, s);
    assert s + [] == s;
  }

  lemma EmptyFilled(buf: array<byte>)
    requires forall j :: 0 <= j < buf.Length ==> buf[j] == 0
    ensures Filled(buf, [])
  {
  }

  lemma AllFilled(buf: array<byte>, done: seq<byte>)
    requires Filled(buf, done)
    ensures |done| <= buf.Length && buf[..] == done + Zeros(buf.Length - |done|)
  {
  }

  /** Makes a key structure from the bytes of a key file; the size alone tells the algorithm. */
  method CreateKey(kdata: seq<byte>, key_version: word, desc: Option<seq<byte>>) returns (r: Option<seq<byte>>)
    ensures r.Some? <==> |kdata| == 1032 || |kdata| == 776
    ensures r.Some? ==>
              && IsKey(r.value) && KeyData(r.value) == kdata
              && U8(r.value, 9) == (if |kdata| == 1032 then ALG_RSA4096 else ALG_RSA3072B)
              && LeWord(r.value, 12) == key_version && Shows(r.value[16..144], desc)
  {
    hide Struct144, U8, U16, LeWord, Shows;
    var sig_alg;
    if |kdata| == KeyDataSize(ALG_RSA4096) {
      sig_alg := ALG_RSA4096;
    } else if |kdata| == KeyDataSize(ALG_RSA3072B) {
      sig_alg := ALG_RSA3072B;
    } else {
      return None;
    }
    var buf := FillStruct144(KEY_MAGIC, sig_alg, key_version, desc, kdata);
    Struct144Fields(KEY_MAGIC, sig_alg, key_version, desc, kdata);
    return Some(buf[..]);
  }

  /** Signs data: the signer takes the digest of the data to the signature bytes. */
  method CreateSig(c: Crypto, data: seq<byte>, sign: seq<byte> -> seq<byte>, sig_alg: int, desc: Option<seq<byte>>)
    returns (r: Option<seq<byte>>)
    requires |sign(c.hash(data))| == SigDataSize(sig_alg)
    ensures r.Some? <==> |data| < BASE - 1 && (sig_alg == ALG_RSA4096 || sig_alg == ALG_RSA3072B)
    ensures r.Some? ==>
              && IsSig(r.value) && |r.value| == SIG_SIZE + SigDataSize(sig_alg)
              && U8(r.value, 9) == sig_alg && LeWord(r.value, 12) == |data|
              && SigData(r.value) == sign(c.hash(data)) && Shows(r.value[16..144], desc)
  {
    hide Struct144, U8, U16, LeWord, Shows;
    if |data| >= BASE - 1 {
      return None;
    }
    if sig_alg != ALG_RSA4096 && sig_alg != ALG_RSA3072B {
      return None;
    }
    var payload := sign(c.hash(data));
    var buf := FillStruct144(SIG_MAGIC, sig_alg, |data|, desc, payload);
    Struct144Fields(SIG_MAGIC, sig_alg, |data|, desc, payload);
    return Some(buf[..]);
  }

  // Whole blocks

  type HashEntry = s: seq<byte> | |s| == 56 witness seq(56, _ => 0)

  type Address = x: nat | x < 0x1_0000_0000_0000_0000

  datatype Params = Params(
    load_address: Address, oem0: seq<byte>, oem1: seq<byte>, bdbkey: seq<byte>, subkey: seq<byte>,
    signBdb: seq<byte> -> seq<byte>, signSub: seq<byte> -> seq<byte>,
    headerSigDesc: Option<seq<byte>>, dataSigDesc: Option<seq<byte>>,
    dataDesc: Option<seq<byte>>, dataVersion: word, hashes: seq<HashEntry>)

  function Joined(hashes: seq<HashEntry>): (s: seq<byte>)
    ensures |s| == 56 * |hashes|
  {
    if |hashes| == 0 then [] else Joined(hashes[..|hashes| - 1]) + hashes[|hashes| - 1]
  }

  /** A key as bdb_create_key makes it. */
  ghost predicate RsaKey(k: seq<byte>)
  {
    IsKey(k) && (U8(k, 9) == ALG_RSA4096 || U8(k, 9) == ALG_RSA3072B)
  }

  /** The signer writes signatures of the size that belongs to the key. */
  ghost predicate Signer(c: Crypto, key: seq<byte>, sign: seq<byte> -> seq<byte>)
    requires IsKey(key)
  {
    forall m: seq<byte> :: |sign(c.hash(m))| == SigDataSize(U8(key, 9))
  }

  /** What the signer makes of the signed bytes is good under the key. */
  ghost predicate Checks(c: Crypto, key: seq<byte>, sign: seq<byte> -> seq<byte>, signed: seq<byte>)
    requires IsKey(key)
  {
    c.Check(U8(key, 9))(KeyData(key), sign(c.hash(signed)), c.hash(signed))
  }

  /** Signing and checking are a correct pair: what the private key signs, the public key accepts. */
  ghost predicate Pair(c: Crypto, key: seq<byte>, sign: seq<byte> -> seq<byte>)
    requires IsKey(key)
  {
    Signer(c, key, sign) && forall m: seq<byte> :: Checks(c, key, sign, m)
  }

  /** The size the builder computes: it always allows for two RSA-4096 signatures. */
  function BdbSize(p: Params): nat
  {
    HEADER_SIZE + |p.bdbkey| + |p.oem0| + |p.subkey| + (SIG_SIZE + 512)
    + DATA_SIZE + |p.oem1| + HASH_SIZE * |p.hashes| + (SIG_SIZE + 512)
  }

  /** The parts the builder writes, given the two signatures. */
  ghost function Built(p: Params, sig0: seq<byte>, sig1: seq<byte>): (r: Parts)
    requires |p.hashes| <= 255 && |sig0| + |sig1| <= 2 * (SIG_SIZE + 512)
    ensures |r.Bytes()| == BdbSize(p)
  {
    Parts(HeaderStruct(p.load_address, BdbSize(p), |p.oem0| + |p.subkey|, |p.oem0|),
          p.bdbkey, p.oem0, p.subkey, [], sig0,
          DataStruct(p.dataVersion, |p.oem1|, |p.hashes|, DATA_SIZE + |p.oem1| + HASH_SIZE * |p.hashes|, p.dataDesc),
          p.oem1, Joined(p.hashes), [], sig1, Zeros(2 * (SIG_SIZE + 512) - |sig0| - |sig1|))
  }

  /** sig is what CreateSig makes of the signed bytes. */
  ghost predicate MadeSig(c: Crypto, key: seq<byte>, sign: seq<byte> -> seq<byte>, signed: seq<byte>, sig: seq<byte>)
    requires RsaKey(key)
  {
    && IsSig(sig) && |sig| == SIG_SIZE + SigDataSize(U8(key, 9))
    && U8(sig, 9) == U8(key, 9) && LeWord(sig, 12) == |signed|
    && SigData(sig) == sign(c.hash(signed))
  }

  lemma MadeSigSigns(c: Crypto, key: seq<byte>, sign: seq<byte> -> seq<byte>, signed: seq<byte>, sig: seq<byte>)
    requires RsaKey(key) && MadeSig(c, key, sign, signed, sig)
    ensures Signs(c, key, sig, signed) <==> Checks(c, key, sign, signed)
  {
    hide IsSig, KeyData, SigData;
  }

  /** Everything accepted by the builder comes out in the layout of the grammar. */
  lemma BuiltIsLayout(c: Crypto, p: Params, sig0: seq<byte>, sig1: seq<byte>)
    requires RsaKey(p.bdbkey) && RsaKey(p.subkey)
    requires |p.oem0| % 4 == 0 && |p.oem1| % 4 == 0 && |p.hashes| <= 255 && BdbSize(p) < BASE
    requires |sig0| + |sig1| <= 2 * (SIG_SIZE + 512)
    requires MadeSig(c, p.bdbkey, p.signBdb, p.oem0 + p.subkey, sig0)
    requires MadeSig(c, p.subkey, p.signSub, DataOf(p) + p.oem1 + Joined(p.hashes), sig1)
    ensures Layout(Built(p, sig0, sig1))
    ensures Block(c, Built(p, sig0, sig1)) <==> Trusted(c, p)
  {
    hide IsKey, IsSig, Signs, HeaderStruct, DataStruct, Joined, Checks;
    var r := Built(p, sig0, sig1);
    assert r.Signed0() == p.oem0 + p.subkey && r.Signed1() == DataOf(p) + p.oem1 + Joined(p.hashes);
    HeaderFields(p.load_address, BdbSize(p), |p.oem0| + |p.subkey|, |p.oem0|);
    DataStructFields(p.dataVersion, |p.oem1|, |p.hashes|, DATA_SIZE + |p.oem1| + HASH_SIZE * |p.hashes|, p.dataDesc);
    MadeSigSigns(c, p.bdbkey, p.signBdb, r.Signed0(), sig0);
    MadeSigSigns(c, p.subkey, p.signSub, r.Signed1(), sig1);
  }

  /** Both signers' results are good under their keys, for the bytes that are signed here. */
  ghost predicate Trusted(c: Crypto, p: Params)
    requires IsKey(p.bdbkey) && IsKey(p.subkey) && |p.hashes| <= 255
  {
    && Checks(c, p.bdbkey, p.signBdb, p.oem0 + p.subkey)
    && Checks(c, p.subkey, p.signSub, DataOf(p) + p.oem1 + Joined(p.hashes))
  }

  /** What comes before the part that the header signature covers. */
  function First(p: Params): seq<byte>
  {
    HeaderStruct(p.load_address, BdbSize(p), |p.oem0| + |p.subkey|, |p.oem0|) + p.bdbkey
  }

  function DataOf(p: Params): (s: seq<byte>)
    requires |p.hashes| <= 255
    ensures |s| == DATA_SIZE
  {
    DataStruct(p.dataVersion, |p.oem1|, |p.hashes|, DATA_SIZE + |p.oem1| + HASH_SIZE * |p.hashes|, p.dataDesc)
  }

  /** Fills in the data structure behind what is already written. */
  method EmitData(buf: array<byte>, at: nat, p: Params, ghost done: seq<byte>) returns (bnext: nat)
    requires Filled(buf, done) && at == |done| && at + DATA_SIZE <= buf.Length && |p.hashes| <= 255
    modifies buf
    ensures bnext == at + DATA_SIZE && Filled(buf, done + DataOf(p))
  {
    hide Filled, Described, DataHead;
    var front := DataHead(p.dataVersion, |p.oem1|, |p.hashes|, DATA_SIZE + |p.oem1| + HASH_SIZE * |p.hashes|);
    assert done + [] == done && [] + front == front;
    bnext := Emit(buf, at, front, done, []);
    bnext := EmitDescription(buf, bnext, p.dataDesc, done, front);
  }

  /** The bytes written one after another are the bytes of the parts. */
  lemma Reassociate(a: seq<byte>, b: seq<byte>, c: seq<byte>, d: seq<byte>, e: seq<byte>,
                    f: seq<byte>, g: seq<byte>, h: seq<byte>, i: seq<byte>, z: seq<byte>)
    ensures (a + b) + (c + d + e) + (f + g + h + i) + z == a + (b + (c + d + [] + (e + (f + g + h + [] + (i + z)))))
  {
    var x, y := c + d + [], f + g + h + [];
    assert x == c + d && y == f + g + h;
  }

  /** The first half of the buffer, up to the header signature. */
  method AssembleFirst(c: Crypto, p: Params, buf: array<byte>) returns (bnext: nat, ghost sig0: seq<byte>)
    requires RsaKey(p.bdbkey) && RsaKey(p.subkey) && Signer(c, p.bdbkey, p.signBdb)
    requires buf.Length == BdbSize(p) < BASE && Filled(buf, [])
    modifies buf
    ensures MadeSig(c, p.bdbkey, p.signBdb, p.oem0 + p.subkey, sig0)
    ensures SigLabels(sig0, p.headerSigDesc)
    ensures var done := First(p) + (p.oem0 + p.subkey + sig0); bnext == |done| && Filled(buf, done)
  {
    hide Filled, Signer, HeaderStruct, MadeSig, RsaKey, IsKey, Zeros, SigLabels;
    var header := HeaderStruct(p.load_address, BdbSize(p), |p.oem0| + |p.subkey|, |p.oem0|);
    bnext := Emit(buf, 0, header, [], []);
    assert [] + ([] + header) == header + [] && header + ([] + p.bdbkey) == First(p) + [];
    bnext := Emit(buf, bnext, p.bdbkey, header, []);
    var oem := bnext;
    bnext := Emit(buf, bnext, p.oem0, First(p), []);
    assert [] + p.oem0 == p.oem0;
    bnext := Emit(buf, bnext, p.subkey, First(p), p.oem0);
    WrittenSince(buf, First(p), p.oem0 + p.subkey);
    var sig := MakeSig(c, p.bdbkey, p.signBdb, buf[oem..bnext], p.headerSigDesc);
    MadeSigSize(c, p.bdbkey, p.signBdb, p.oem0 + p.subkey, sig);
    bnext := Emit(buf, bnext, sig, First(p), p.oem0 + p.subkey);
    sig0 := sig;
  }

  /** The second half: data, OEM area 1, hashes and the data signature. */
  method AssembleSecond(c: Crypto, p: Params, buf: array<byte>, at: nat, ghost done0: seq<byte>)
    returns (ghost sig1: seq<byte>)
    requires RsaKey(p.subkey) && Signer(c, p.subkey, p.signSub) && |p.hashes| <= 255
    requires at == |done0| && Filled(buf, done0)
    requires at + DATA_SIZE + |p.oem1| + HASH_SIZE * |p.hashes| + SIG_SIZE + 512 <= buf.Length < BASE
    modifies buf
    ensures MadeSig(c, p.subkey, p.signSub, DataOf(p) + p.oem1 + Joined(p.hashes), sig1)
    ensures SigLabels(sig1, p.dataSigDesc)
    ensures Filled(buf, done0 + (DataOf(p) + p.oem1 + Joined(p.hashes) + sig1))
  {
    hide Filled, Signer, DataStruct, MadeSig, Joined, RsaKey, SigLabels;
    var bnext := EmitData(buf, at, p, done0);
    ghost var done := DataOf(p);
    bnext := Emit(buf, bnext, p.oem1, done0, done);
    done := done + p.oem1;
    bnext := Emit(buf, bnext, Joined(p.hashes), done0, done);
    done := done + Joined(p.hashes);
    WrittenSince(buf, done0, done);
    var sig := MakeSig(c, p.subkey, p.signSub, buf[at..bnext], p.dataSigDesc);
    MadeSigSize(c, p.subkey, p.signSub, done, sig);
    bnext := Emit(buf, bnext, sig, done0, done);
    sig1 := sig;
  }

  lemma WrittenSince(buf: array<byte>, base: seq<byte>, part: seq<byte>)
    requires Filled(buf, base + part)
    ensures |base| + |part| <= buf.Length && buf[|base|..|base| + |part|] == part
  {
    assert buf[|base|..|base| + |part|] == buf[..|base + part|][|base|..];
  }

  lemma MadeSigSize(c: Crypto, key: seq<byte>, sign: seq<byte> -> seq<byte>, signed: seq<byte>, sig: seq<byte>)
    requires RsaKey(key) && MadeSig(c, key, sign, signed, sig)
    ensures |sig| <= SIG_SIZE + 512
  {
  }

  /**
   * Builds a block. It refuses exactly misaligned OEM areas, more than 255 hashes and a size beyond
   * 32 bits; otherwise the result is the block of the given parts, and it verifies exactly when the
   * two signatures are good under the two keys.
   */
  method Create(c: Crypto, p: Params) returns (r: Option<seq<byte>>)
    requires RsaKey(p.bdbkey) && RsaKey(p.subkey)
    requires Signer(c, p.bdbkey, p.signBdb) && Signer(c, p.subkey, p.signSub)
    ensures r.None? <==> |p.oem0| % 4 != 0 || |p.oem1| % 4 != 0 || |p.hashes| > 255 || BdbSize(p) >= BASE
    ensures r.Some? ==>
              exists sig0, sig1: seq<byte> ::
                && |sig0| + |sig1| <= 2 * (SIG_SIZE + 512)
                && r.value == Built(p, sig0, sig1).Bytes() && Layout(Built(p, sig0, sig1))
    ensures r.Some? ==> |r.value| == BdbSize(p) && Holds(r.value, p) && Labelled(r.value, p)
    ensures r.Some? ==> (Verify(c, r.value, c.hash(p.bdbkey)) == SUCCESS <==> Trusted(c, p))
  {
    hide Filled, Signer, HeaderStruct, DataStruct, Layout, Verify, Joined, MadeSig, RsaKey, Built, IsKey, Parts.Bytes;
    hide Holds, Labelled, Trusted, SigLabels;
    if |p.oem0| % 4 != 0 || |p.oem1| % 4 != 0 {
      return None;
    }
    if |p.hashes| > 255 {
      return None;
    }
    var bdb_size := BdbSize(p);
    if bdb_size > 0xFFFF_FFFF {
      return None;
    }
    var buf := new byte[bdb_size](_ => 0);
    EmptyFilled(buf);
    var bnext, sig0 := AssembleFirst(c, p, buf);
    MadeSigSize(c, p.bdbkey, p.signBdb, p.oem0 + p.subkey, sig0);
    ghost var done := First(p) + (p.oem0 + p.subkey + sig0);
    ghost var sig1 := AssembleSecond(c, p, buf, bnext, done);
    MadeSigSize(c, p.subkey, p.signSub, DataOf(p) + p.oem1 + Joined(p.hashes), sig1);
    r := Some(buf[..]);
    AllFilled(buf, done + (DataOf(p) + p.oem1 + Joined(p.hashes) + sig1));
    Created(c, p, sig0, sig1, buf[..]);
    BuiltExtracted(p, sig0, sig1);
    BuiltLabelled(p, sig0, sig1);
  }

  lemma Created(c: Crypto, p: Params, sig0: seq<byte>, sig1: seq<byte>, bytes: seq<byte>)
    requires RsaKey(p.bdbkey) && RsaKey(p.subkey)
    requires |p.oem0| % 4 == 0 && |p.oem1| % 4 == 0 && |p.hashes| <= 255 && |bytes| == BdbSize(p) < BASE
    requires |sig0| <= SIG_SIZE + 512 && |sig1| <= SIG_SIZE + 512
    requires MadeSig(c, p.bdbkey, p.signBdb, p.oem0 + p.subkey, sig0)
    requires MadeSig(c, p.subkey, p.signSub, DataOf(p) + p.oem1 + Joined(p.hashes), sig1)
    requires var done := First(p) + (p.oem0 + p.subkey + sig0) + (DataOf(p) + p.oem1 + Joined(p.hashes) + sig1);
             |done| <= |bytes| && bytes == done + Zeros(|bytes| - |done|)
    ensures bytes == Built(p, sig0, sig1).Bytes() && Layout(Built(p, sig0, sig1))
    ensures Verify(c, bytes, c.hash(p.bdbkey)) == SUCCESS <==> Trusted(c, p)
  {
    hide HeaderStruct, DataStruct, Block, Layout, Verify, Joined, MadeSig, RsaKey, Trusted;
    var b := Built(p, sig0, sig1);
    Reassociate(b.header, p.bdbkey, p.oem0, p.subkey, sig0, b.data, p.oem1, b.hashes, sig1, b.rest);
    BuiltIsLayout(c, p, sig0, sig1);
    LayoutVerifies(c, b, c.hash(p.bdbkey));
  }

  /** With keys and signers that belong together, what is built verifies. */
  lemma PairsTrusted(c: Crypto, p: Params)
    requires IsKey(p.bdbkey) && IsKey(p.subkey) && |p.hashes| <= 255
    requires Pair(c, p.bdbkey, p.signBdb) && Pair(c, p.subkey, p.signSub)
    ensures Trusted(c, p)
  {
    hide IsKey, Checks, DataOf, Joined;
  }

  method MakeSig(c: Crypto, key: seq<byte>, sign: seq<byte> -> seq<byte>, signed: seq<byte>, desc: Option<seq<byte>>)
    returns (sig: seq<byte>)
    requires RsaKey(key) && Signer(c, key, sign) && |signed| < BASE - 1
    ensures MadeSig(c, key, sign, signed, sig) && SigLabels(sig, desc)
  {
    hide IsSig, Shows;
    assert |sign(c.hash(signed))| == SigDataSize(U8(key, 9));
    var s := CreateSig(c, signed, sign, U8(key, 9), desc);
    sig := s.value;
  }

  // Taking a built block apart again

  lemma {:induction false} JoinedAt(hashes: seq<HashEntry>, i: nat)
    requires i < |hashes|
    ensures Joined(hashes)[56 * i..56 * i + 56] == hashes[i]
  {
    var n := |hashes| - 1;
    var front := Joined(hashes[..n]);
    assert Joined(hashes) == front + hashes[n];
    hide Joined;
    if i < n {
      JoinedAt(hashes[..n], i);
      assert (front + hashes[n])[56 * i..56 * i + 56] == front[56 * i..56 * i + 56];
    }
  }

  /** The getters find what the block was built from. */
  ghost predicate Holds(buf: seq<byte>, p: Params)
  {
    && HasData(buf)
    && p.bdbkey <= GetBdbKey(buf) && p.oem0 <= GetOem0(buf) && p.subkey <= GetSubkey(buf)
    && p.oem1 <= GetOem1(buf) && Joined(p.hashes) <= GetHashes(buf)
    && U8(GetData(buf), 16) == |p.hashes| && U8(GetData(buf), 17) == 56
  }

  /** The getters find in a built block exactly what it was built from. */
  lemma BuiltExtracted(p: Params, sig0: seq<byte>, sig1: seq<byte>)
    requires |p.hashes| <= 255 && |sig0| + |sig1| <= 2 * (SIG_SIZE + 512)
    requires BdbSize(p) < BASE && Layout(Built(p, sig0, sig1))
    ensures Holds(Built(p, sig0, sig1).Bytes(), p)
  {
    hide Parts.Bytes, Layout, Joined, DataStruct, HeaderStruct;
    hide HasData, GetBdbKey, GetOem0, GetSubkey, GetOem1, GetHashes, GetData, GetHeaderSig, GetDataSig, U8, U16, LeWord;
    Extracted(Built(p, sig0, sig1));
    DataStructFields(p.dataVersion, |p.oem1|, |p.hashes|, DATA_SIZE + |p.oem1| + HASH_SIZE * |p.hashes|, p.dataDesc);
  }

  /** The header fields that no check looks at: load address, size, minor version and reserved bytes. */
  predicate HeaderLabels(h: seq<byte>, p: Params, size: nat)
  {
    && |h| >= HEADER_SIZE && LeLong(h, 8) == p.load_address && LeWord(h, 16) == size
    && U8(h, 5) == 0 && (forall j :: 28 <= j < 36 ==> h[j] == 0)
  }

  /** Those of the data: version, description, minor version and reserved bytes. */
  predicate DataLabels(d: seq<byte>, p: Params)
  {
    && |d| >= DATA_SIZE && LeWord(d, 8) == p.dataVersion && Shows(d[32..160], p.dataDesc)
    && U8(d, 5) == U8(d, 18) == U8(d, 19) == 0 && (forall j :: 24 <= j < 32 ==> d[j] == 0)
  }

  predicate SigLabels(g: seq<byte>, desc: Option<seq<byte>>)
  {
    |g| >= SIG_SIZE && Shows(g[16..144], desc)
  }

  ghost predicate Labelled(buf: seq<byte>, p: Params)
  {
    && HasData(buf)
    && HeaderLabels(buf, p, |buf|) && DataLabels(GetData(buf), p)
    && SigLabels(GetHeaderSig(buf), p.headerSigDesc) && SigLabels(GetDataSig(buf), p.dataSigDesc)
  }

  lemma BuiltLabelled(p: Params, sig0: seq<byte>, sig1: seq<byte>)
    requires |p.hashes| <= 255 && |sig0| + |sig1| <= 2 * (SIG_SIZE + 512)
    requires BdbSize(p) < BASE && Layout(Built(p, sig0, sig1))
    requires SigLabels(sig0, p.headerSigDesc) && SigLabels(sig1, p.dataSigDesc)
    ensures Labelled(Built(p, sig0, sig1).Bytes(), p)
  {
    hide Layout, Joined, DataStruct, HeaderStruct, HeaderLabels, DataLabels, SigLabels, HasSigned, U8, U16, LeWord;
    hide GetBdbKey, GetOem0, GetSubkey, GetOem1, GetHashes, GetData, GetHeaderSig, GetDataSig;
    var b := Built(p, sig0, sig1);
    var buf := b.Bytes();
    Extracted(b);
    assert b.header <= buf;
    HeaderIsLabelled(p, BdbSize(p), buf);
    DataIsLabelled(p, GetData(buf));
    SigIsLabelled(sig0, GetHeaderSig(buf), p.headerSigDesc);
    SigIsLabelled(sig1, GetDataSig(buf), p.dataSigDesc);
  }

  lemma HeaderIsLabelled(p: Params, size: nat, s: seq<byte>)
    requires size < BASE && |p.oem0| + |p.subkey| < BASE
    requires HeaderStruct(p.load_address, size, |p.oem0| + |p.subkey|, |p.oem0|) <= s
    ensures HeaderLabels(s, p, size)
  {
    hide HeaderStruct;
    var h := HeaderStruct(p.load_address, size, |p.oem0| + |p.subkey|, |p.oem0|);
    HeaderFields(p.load_address, size, |p.oem0| + |p.subkey|, |p.oem0|);
    SameFront(h, s);
    assert forall j :: 28 <= j < 36 ==> h[j] == h[28..36][j - 28];
  }

  lemma DataIsLabelled(p: Params, s: seq<byte>)
    requires |p.hashes| <= 255 && DATA_SIZE + |p.oem1| + HASH_SIZE * |p.hashes| < BASE && DataOf(p) <= s
    ensures DataLabels(s, p)
  {
    hide DataStruct, Shows;
    var d := DataOf(p);
    DataStructFields(p.dataVersion, |p.oem1|, |p.hashes|, DATA_SIZE + |p.oem1| + HASH_SIZE * |p.hashes|, p.dataDesc);
    SameFront(d, s);
    assert forall j :: 24 <= j < 32 ==> d[j] == d[24..32][j - 24];
    assert s[32..160] == d[32..160];
  }

  lemma SigIsLabelled(g: seq<byte>, s: seq<byte>, desc: Option<seq<byte>>)
    requires g <= s && SigLabels(g, desc)
    ensures SigLabels(s, desc)
  {
    hide Shows;
    assert s[16..144] == g[16..144];
  }

  lemma SameFront(a: seq<byte>, s: seq<byte>)
    requires a <= s
    ensures forall i :: 0 <= i < |a| ==> s[i] == a[i]
  {
  }

  /** Entry i of the hash area is the i-th hash, so a search by type sees the hashes as given. */
  lemma HeldHash(buf: seq<byte>, p: Params, i: nat, kind: byte)
    requires Holds(buf, p) && i < |p.hashes|
    ensures |p.hashes| * 56 <= |GetHashes(buf)|
    ensures GetHashes(buf)[56 * i..56 * i + 56] == p.hashes[i]
    ensures HasEntry(GetHashes(buf), 56, |p.hashes|, i, kind) <==> p.hashes[i][13] == kind
  {
    hide Joined, HasData, GetBdbKey, GetOem0, GetSubkey, GetOem1, GetHashes, GetData, U8;
    JoinedAt(p.hashes, i);
    var h, j := GetHashes(buf), Joined(p.hashes);
    assert h[..|j|] == j;
    assert h[56 * i..56 * i + 56] == h[..|j|][56 * i..56 * i + 56];
    assert h[56 * i..56 * i + 56][13] == h[56 * i + 13];
  }

  /** In a created block the search finds the first of the given hashes that has the type. */
  method FindHash(buf: seq<byte>, p: Params, kind: byte) returns (r: Option<nat>)
    requires Holds(buf, p)
    ensures r.None? <==> forall i :: 0 <= i < |p.hashes| ==> p.hashes[i][13] != kind
    ensures r.Some? ==>
              exists i :: 0 <= i < |p.hashes| && r.value == 56 * i && p.hashes[i][13] == kind
                          && GetHashes(buf)[56 * i..56 * i + 56] == p.hashes[i]
                          && forall j :: 0 <= j < i ==> p.hashes[j][13] != kind
  {
    r := GetHash(buf, kind);
    hide Joined, HasData, GetHashes, GetData, HasEntry, U8;
    forall i: nat | i < |p.hashes|
      ensures |p.hashes| * 56 <= |GetHashes(buf)|
      ensures GetHashes(buf)[56 * i..56 * i + 56] == p.hashes[i]
      ensures HasEntry(GetHashes(buf), 56, |p.hashes|, i, kind) <==> p.hashes[i][13] == kind
    {
      HeldHash(buf, p, i, kind);
    }
  }

  // Beyond 2^32 bytes

  /** A header and key in front of an OEM area: verification goes on with that area. */
  lemma HeaderVerifies(c: Crypto, header: seq<byte>, key: seq<byte>, oem: seq<byte>, kd: seq<byte>)
    requires |header| == HEADER_SIZE == U16(header, 6) && IsKey(key) && CheckHeader(header) == SUCCESS
    ensures var buf := header + (key + oem);
            && CheckKey(key + oem) == SUCCESS && U16(key + oem, 6) == |key| && (key + oem)[|key|..] == oem
            && |buf| >= HEADER_SIZE && U16(buf, 6) == HEADER_SIZE && buf[HEADER_SIZE..] == key + oem
            && LeWord(buf, 24) == LeWord(header, 24)
            && Verify(c, buf, kd)
                 == VerifySigned(c, LeWord(header, 24), LeWord(header, 20), key + oem, oem, c.hash(key) != kd)
  {
    hide IsKey, CheckKey, VerifySigned;
    var buf := header + (key + oem);
    Front(header, key + oem);
    FieldsOfPrefix(buf, HEADER_SIZE);
    HeaderAtFront(header);
    HeaderAtFront(buf);
    KeyFront(key, oem);
    Front(key, oem);
  }

  /** A key and a signature structure with nothing in them. */
  lemma BlankStructs(signed: word)
    ensures var key := Struct144(KEY_MAGIC, ALG_RSA4096, 0, None, Zeros(1032));
            IsKey(key) && |key| == 1176 && U8(key, 9) == ALG_RSA4096
    ensures var sig := Struct144(SIG_MAGIC, ALG_RSA4096, signed, None, Zeros(512));
            IsSig(sig) && |sig| == 656 && LeWord(sig, 12) == signed && U8(sig, 9) == ALG_RSA4096
  {
    hide Struct144, U8, U16, LeWord, Zeros;
    Struct144Fields(KEY_MAGIC, ALG_RSA4096, 0, None, Zeros(1032));
    Struct144Fields(SIG_MAGIC, ALG_RSA4096, signed, None, Zeros(512));
  }

  /** Cryptography that accepts everything. */
  ghost function AcceptAll(): Crypto
  {
    Crypto(_ => [], (key, sig, digest) => true, (key, sig, digest) => true, (key, sig, digest) => true)
  }

  lemma BlankDataVerifies(key: seq<byte>, sig: seq<byte>, rest: seq<byte>, mismatch: bool)
    requires IsKey(key) && IsSig(sig) && U8(key, 9) == U8(sig, 9) && LeWord(sig, 12) == DATA_SIZE
    requires CheckKey(key) == SUCCESS && U16(key, 6) == |key|
    ensures Good(VerifyData(AcceptAll(), key, DataStruct(0, 0, 0, DATA_SIZE, None) + (sig + rest), mismatch))
  {
    hide DataStruct, VerifyData, IsKey, IsSig, CheckKey, U8, U16, LeWord;
    var data := DataStruct(0, 0, 0, DATA_SIZE, None);
    DataStructFields(0, 0, 0, DATA_SIZE, None);
    var p := Parts([], [], [], key, [], [], data, [], [], [], sig, rest);
    assert p.Signed1() == data;
    DataVerifies(AcceptAll(), p, key, mismatch);
  }

  /** The last step of VerifySigned, for a signature behind n signed bytes and a subkey at o. */
  lemma SignedStep(bdbkey: seq<byte>, oem: seq<byte>, o: nat, n: nat, sig: seq<byte>, tail: seq<byte>, mismatch: bool)
    requires o <= |oem| && n <= |oem| && oem[n..] == sig + tail && IsSig(sig) && LeWord(sig, 12) == n
    requires CheckKey(oem[o..]) == SUCCESS && (o + U16(oem[o..], 6)) % BASE <= n
    requires CheckKey(bdbkey) == SUCCESS && U8(bdbkey, 9) == U8(sig, 9)
    ensures VerifySigned(AcceptAll(), o, n, bdbkey, oem, mismatch) == VerifyData(AcceptAll(), oem[o..], tail, mismatch)
  {
    hide VerifyData, IsSig, CheckKey, CheckSig, KeyData, SigData;
    SigFront(sig, tail);
    Front(sig, tail);
    SigAtFront(sig + tail);
    KeyAtFront(bdbkey);
  }

  /** So the sum can wrap: a buffer beyond 2^32 bytes that verifies, with its subkey behind what is signed. */
  lemma WrappedSum() returns (buf: seq<byte>)
    ensures SumWraps(buf) && Good(Verify(AcceptAll(), buf, []))
  {
    hide Struct144, HeaderStruct, DataStruct, Zeros, Verify, VerifySigned, VerifyData, CheckHeader, CheckKey, IsKey, IsSig;
    hide LeWord, U16;
    var o, n := BASE - 4, 1172;
    var key := Struct144(KEY_MAGIC, ALG_RSA4096, 0, None, Zeros(1032));
    var sig0 := Struct144(SIG_MAGIC, ALG_RSA4096, n, None, Zeros(512));
    var sig1 := Struct144(SIG_MAGIC, ALG_RSA4096, DATA_SIZE, None, Zeros(512));
    BlankStructs(n);
    BlankStructs(DATA_SIZE);
    var data := DataStruct(0, 0, 0, DATA_SIZE, None);
    var header := HeaderStruct(0, HEADER_SIZE, n, o);
    HeaderFields(0, HEADER_SIZE, n, o);
    HeaderAtFront(header);
    var front := Zeros(n) + (sig0 + (data + sig1)) + Zeros(o - n - 1472);
    var rest := Zeros(o - n - 1472) + key;
    var tail := data + (sig1 + rest);
    var oem := front + key;
    Front(front, key);
    assert oem == Zeros(n) + (sig0 + tail);
    Front(Zeros(n), sig0 + tail);
    buf := header + (key + oem);
    KeyFront(key, []);
    assert key + [] == key;
    HeaderVerifies(AcceptAll(), header, key, oem, []);
    SignedStep(key + oem, oem, o, n, sig0, tail, AcceptAll().hash(key) != []);
    BlankDataVerifies(key, sig1, rest, AcceptAll().hash(key) != []);
  }
}
