/** Extraction of the parts of a verified block. A pointer is the rest of the buffer from there on. */
module BdbAccess {
  import opened Words
  import opened Bdb
  import opened BdbGrammar

  predicate HasHeader(buf: seq<byte>) { |buf| >= HEADER_SIZE && U16(buf, 6) <= |buf| }

  function GetBdbKey(buf: seq<byte>): seq<byte>
    requires HasHeader(buf)
  {
    buf[U16(buf, 6)..]
  }

  predicate HasKey(buf: seq<byte>)
  {
    HasHeader(buf) && var k := GetBdbKey(buf); |k| >= KEY_SIZE && U16(k, 6) <= |k|
  }

  function GetOem0(buf: seq<byte>): seq<byte>
    requires HasKey(buf)
  {
    var k := GetBdbKey(buf);
    k[U16(k, 6)..]
  }

  predicate HasSigned(buf: seq<byte>)
  {
    HasKey(buf) && LeWord(buf, 24) <= |GetOem0(buf)| && LeWord(buf, 20) <= |GetOem0(buf)|
  }

  function GetSubkey(buf: seq<byte>): seq<byte>
    requires HasSigned(buf)
  {
    GetOem0(buf)[LeWord(buf, 24)..]
  }

  function GetHeaderSig(buf: seq<byte>): seq<byte>
    requires HasSigned(buf)
  {
    GetOem0(buf)[LeWord(buf, 20)..]
  }

  predicate HasHeaderSig(buf: seq<byte>)
  {
    HasSigned(buf) && var g := GetHeaderSig(buf); |g| >= SIG_SIZE && U16(g, 6) <= |g|
  }

  function GetData(buf: seq<byte>): seq<byte>
    requires HasHeaderSig(buf)
  {
    var g := GetHeaderSig(buf);
    g[U16(g, 6)..]
  }

  predicate HasData(buf: seq<byte>)
  {
    && HasHeaderSig(buf)
    && var d := GetData(buf);
    && |d| >= DATA_SIZE && U16(d, 6) + LeWord(d, 12) + U8(d, 16) * U8(d, 17) <= LeWord(d, 20) <= |d|
    && U8(d, 17) >= HASH_SIZE && U8(d, 16) * U8(d, 17) >= 0
  }

  function GetOem1(buf: seq<byte>): seq<byte>
    requires HasData(buf)
  {
    var d := GetData(buf);
    d[U16(d, 6)..]
  }

  function GetHashes(buf: seq<byte>): seq<byte>
    requires HasData(buf)
  {
    GetOem1(buf)[LeWord(GetData(buf), 12)..]
  }

  function GetDataSig(buf: seq<byte>): seq<byte>
    requires HasData(buf)
  {
    var d := GetData(buf);
    d[LeWord(d, 20)..]
  }

  /** After verification every getter points at the part it is named for. */
  lemma Extracted(p: Parts)
    requires Layout(p)
    ensures var buf := p.Bytes();
            && HasData(buf)
            && p.bdbkey <= GetBdbKey(buf) && p.oem0 <= GetOem0(buf) && p.subkey <= GetSubkey(buf)
            && p.headerSig <= GetHeaderSig(buf) && p.data <= GetData(buf) && p.oem1 <= GetOem1(buf)
            && p.hashes <= GetHashes(buf) && p.dataSig <= GetDataSig(buf)
            && U8(GetData(buf), 16) == U8(p.data, 16) && U8(GetData(buf), 17) == U8(p.data, 17)
  {
    var t1 := p.dataSig + p.rest;
    var d := p.Signed1() + t1;
    var buf := p.Bytes();
    DataParts(p, t1);
    hide IsKey, IsSig, Signs, IsDataOf, Parts.Signed0, Parts.Signed1;
    OemReached(p, p.headerSig + d, buf);
    DataReached(p, d, buf);
    hide HasHeaderSig;
  }

  lemma OemReached(p: Parts, after: seq<byte>, buf: seq<byte>)
    requires IsHeaderOf(p) && IsKey(p.bdbkey) && buf == p.header + (p.bdbkey + (p.Signed0() + after))
    ensures HasSigned(buf)
    ensures LeWord(buf, 24) == |p.oem0| && LeWord(buf, 20) == |p.Signed0()|
    ensures GetBdbKey(buf) == p.bdbkey + (p.Signed0() + after) && GetOem0(buf) == p.Signed0() + after
  {
    var oem := p.Signed0() + after;
    Front(p.header, p.bdbkey + oem);
    FieldsOfPrefix(buf, |p.header|);
    KeySize(p.bdbkey);
    hide IsKey;
    KeyFront(p.bdbkey, oem);
    Front(p.bdbkey, oem);
  }

  lemma DataReached(p: Parts, d: seq<byte>, buf: seq<byte>)
    requires HasSigned(buf) && IsSig(p.headerSig)
    requires LeWord(buf, 24) == |p.oem0| && LeWord(buf, 20) == |p.Signed0()|
    requires GetOem0(buf) == p.Signed0() + (p.headerSig + d)
    ensures HasHeaderSig(buf)
    ensures p.oem0 <= GetOem0(buf) && p.subkey <= GetSubkey(buf) && p.headerSig <= GetHeaderSig(buf) && GetData(buf) == d
  {
    hide HasSigned, GetOem0;
    var g := p.headerSig + d;
    assert GetSubkey(buf) == p.subkey + (p.extra0 + g);
    Front(p.Signed0(), g);
    SigSize(p.headerSig);
    hide IsSig;
    SigFront(p.headerSig, d);
    Front(p.headerSig, d);
  }

  lemma DataParts(p: Parts, t: seq<byte>)
    requires IsDataOf(p)
    ensures var d := p.Signed1() + t;
            && |d| >= DATA_SIZE && U8(p.data, 16) * U8(p.data, 17) >= 0
            && U16(d, 6) == |p.data| && LeWord(d, 12) == |p.oem1| && LeWord(d, 20) == |p.Signed1()|
            && U8(d, 16) == U8(p.data, 16) && U8(d, 17) == U8(p.data, 17) >= HASH_SIZE
            && U8(d, 16) * U8(d, 17) == |p.hashes|
            && |p.data| + |p.oem1| + |p.hashes| <= |p.Signed1()| <= |d|
            && p.data <= d && p.oem1 <= d[|p.data|..] && p.hashes <= d[|p.data|..][|p.oem1|..]
            && d[|p.Signed1()|..] == t
  {
    var d := p.Signed1() + t;
    assert d[..|p.data|] == p.data;
    FieldsOfPrefix(d, |p.data|);
    assert d[|p.data|..] == p.oem1 + (p.hashes + (p.extra1 + t));
    assert d[|p.data|..][|p.oem1|..] == p.hashes + (p.extra1 + t);
  }

  datatype Option<T> = None | Some(value: T)

  /** The type byte of hash entry i. */
  function EntryType(hashes: seq<byte>, entry_size: nat, i: nat): byte
    requires HASH_SIZE <= entry_size && (i + 1) * entry_size <= |hashes|
  {
    EntryFits(i, entry_size, |hashes|);
    hashes[i * entry_size + 13]
  }

  lemma EntryFits(i: nat, entry_size: nat, n: nat)
    requires HASH_SIZE <= entry_size && (i + 1) * entry_size <= n
    ensures 0 <= i * entry_size && i * entry_size + HASH_SIZE <= n
  {
    assert (i + 1) * entry_size == i * entry_size + entry_size;
  }

  ghost predicate HasEntry(hashes: seq<byte>, entry_size: nat, n: nat, i: nat, kind: byte)
    requires HASH_SIZE <= entry_size && n * entry_size <= |hashes|
  {
    i < n && (EntryBound(i, n, entry_size); EntryType(hashes, entry_size, i) == kind)
  }

  lemma EntryBound(i: nat, n: nat, entry_size: nat)
    requires i < n
    ensures (i + 1) * entry_size <= n * entry_size
  {
  }

  /** Finds the first hash of the given type; the offset is into the hash area. */
  method GetHash(buf: seq<byte>, kind: byte) returns (r: Option<nat>)
    requires HasData(buf)
    ensures var d := GetData(buf); var h, n, size: nat := GetHashes(buf), U8(d, 16), U8(d, 17);
            && n * size <= |h|
            && (r.None? <==> forall i :: 0 <= i < n ==> !HasEntry(h, size, n, i, kind))
            && (r.Some? ==> exists i :: 0 <= i < n && r.value == i * size && HasEntry(h, size, n, i, kind)
                              && forall j :: 0 <= j < i ==> !HasEntry(h, size, n, j, kind))
  {
    var d := GetData(buf);
    var h := GetHashes(buf);
    var n: nat, size: nat := U8(d, 16), U8(d, 17);
    var i: nat, b8: nat := 0, 0;
    while i < n
      invariant 0 <= i <= n && b8 == i * size
      invariant forall j :: 0 <= j < i ==> !HasEntry(h, size, n, j, kind)
    {
      EntryBound(i, n, size);
      EntryFits(i, size, |h|);
      assert h[b8 + 13] == EntryType(h, size, i);
      if h[b8 + 13] == kind {
        assert HasEntry(h, size, n, i, kind);
        return Some(b8);
      }
      assert b8 + size == (i + 1) * size;
      i, b8 := i + 1, b8 + size;
    }
    return None;
  }
}
