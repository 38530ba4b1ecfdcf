/** Verification accepts exactly the blocks of the grammar, and cuts them in only one way. */
module BdbGrammar {
  import opened Words
  import opened Bdb

  lemma Front(a: seq<byte>, r: seq<byte>)
    ensures (a + r)[..|a|] == a && (a + r)[|a|..] == r
  {
  }

  lemma SliceOfPrefix(s: seq<byte>, n: nat, a: nat, b: nat)
    requires a <= b <= n <= |s|
    ensures s[..n][a..b] == s[a..b]
  {
  }

  /** What a key check says about the buffer: a whole key structure is at its front. */
  lemma KeyAtFront(s: seq<byte>)
    ensures CheckKey(s) == SUCCESS <==> |s| >= KEY_SIZE && U16(s, 6) <= |s| && IsKey(s[..U16(s, 6)])
    ensures CheckKey(s) == SUCCESS ==>
              var k := s[..U16(s, 6)]; U8(k, 9) == U8(s, 9) && KeyData(k) == KeyData(s)
  {
    if |s| >= KEY_SIZE && U16(s, 6) <= |s| {
      var k := s[..U16(s, 6)];
      if |k| >= KEY_SIZE { SliceOfPrefix(s, |k|, 16, 144); }
    }
  }

  lemma SigAtFront(s: seq<byte>)
    ensures CheckSig(s) == SUCCESS <==> |s| >= SIG_SIZE && U16(s, 6) <= |s| && IsSig(s[..U16(s, 6)])
    ensures CheckSig(s) == SUCCESS ==>
              var g := s[..U16(s, 6)]; U8(g, 9) == U8(s, 9) && LeWord(g, 12) == LeWord(s, 12) && SigData(g) == SigData(s)
  {
    if |s| >= SIG_SIZE && U16(s, 6) <= |s| {
      var g := s[..U16(s, 6)];
      if |g| >= SIG_SIZE { SliceOfPrefix(s, |g|, 16, 144); }
    }
  }

  /** A signature check depends on the two structures only. */
  lemma VerifySigAtFront(c: Crypto, key: seq<byte>, sig: seq<byte>, signed: seq<byte>)
    requires CheckKey(key) == SUCCESS && CheckSig(sig) == SUCCESS && LeWord(sig, 12) == |signed|
    ensures IsKey(key[..U16(key, 6)]) && IsSig(sig[..U16(sig, 6)])
    ensures VerifySig(c, key, sig, c.hash(signed)) == SUCCESS
            <==> Signs(c, key[..U16(key, 6)], sig[..U16(sig, 6)], signed)
  {
    KeyAtFront(key);
    SigAtFront(sig);
    hide KeyData, SigData, CheckKey, CheckSig, IsKey, IsSig;
  }

  lemma SplitAt(s: seq<byte>, n: nat)
    requires n <= |s|
    ensures s == s[..n] + s[n..]
  {
  }

  lemma SplitThree(s: seq<byte>, a: nat, b: nat, n: nat)
    requires a <= b <= n <= |s|
    ensures s[..n] == s[..a] + s[a..b] + s[b..n]
  {
  }

  predicate Good(code: int) { code == SUCCESS || code == GOOD_OTHER_THAN_KEY }

  /** The 32-bit sum of the sizes of OEM area 0 and subkey wraps around. */
  predicate SumWraps(buf: seq<byte>)
  {
    && |buf| >= HEADER_SIZE && U16(buf, 6) <= |buf|
    && var k := buf[U16(buf, 6)..];
    && |k| >= KEY_SIZE && U16(k, 6) <= |k|
    && var oem := k[U16(k, 6)..];
    && LeWord(buf, 24) + 8 <= |oem|
    && LeWord(buf, 24) + U16(oem[LeWord(buf, 24)..], 6) >= BASE
  }

  /** A header check, in terms of the structure at the front. */
  lemma HeaderAtFront(s: seq<byte>)
    ensures CheckHeader(s) == SUCCESS <==>
              && |s| >= HEADER_SIZE && HEADER_SIZE <= U16(s, 6) <= |s|
              && LeWord(s, 0) == HEADER_MAGIC && U8(s, 4) == 1 && LeWord(s, 16) >= HEADER_SIZE && LeWord(s, 24) % 4 == 0
  {
  }

  /** An OEM area, subkey and header signature that pass, cut apart. */
  lemma SignedCut(c: Crypto, o: nat, n: nat, bdbkey: seq<byte>, oem: seq<byte>, mismatch: bool)
    returns (oem0: seq<byte>, subkey: seq<byte>, extra0: seq<byte>, headerSig: seq<byte>, after: seq<byte>)
    requires CheckKey(bdbkey) == SUCCESS && (o + 8 <= |oem| ==> o + U16(oem[o..], 6) < BASE)
    requires Good(VerifySigned(c, o, n, bdbkey, oem, mismatch))
    ensures oem == (oem0 + subkey + extra0) + (headerSig + after)
    ensures |oem0| == o && |oem0 + subkey + extra0| == n
    ensures IsKey(bdbkey[..U16(bdbkey, 6)]) && IsKey(subkey) && IsSig(headerSig)
    ensures Signs(c, bdbkey[..U16(bdbkey, 6)], headerSig, oem0 + subkey + extra0)
    ensures o <= |oem| && CheckKey(oem[o..]) == SUCCESS && subkey == oem[o..][..U16(oem[o..], 6)]
    ensures VerifySigned(c, o, n, bdbkey, oem, mismatch) == VerifyData(c, oem[o..], after, mismatch)
  {
    hide CheckKey, CheckSig, VerifySig, VerifyData, IsKey, IsSig, Signs;
    var sub := oem[o..];
    KeyAtFront(sub);
    var m := o + U16(sub, 6);
    var sig := oem[n..];
    SigAtFront(sig);
    VerifySigAtFront(c, bdbkey, sig, oem[..n]);
    oem0, subkey, extra0 := oem[..o], oem[o..m], oem[m..n];
    headerSig, after := sig[..U16(sig, 6)], sig[U16(sig, 6)..];
    assert oem[o..m] == sub[..U16(sub, 6)];
    SplitThree(oem, o, m, n);
    SplitAt(oem, n);
    SplitAt(sig, U16(sig, 6));
  }

  /** A buffer that passes the first half of the checks, cut into the parts they look at. */
  lemma FirstCut(c: Crypto, buf: seq<byte>, kd: seq<byte>) returns (p: Parts, sub: seq<byte>, after: seq<byte>)
    requires Good(Verify(c, buf, kd)) && !SumWraps(buf)
    ensures FirstHalf(p) && Signs(c, p.bdbkey, p.headerSig, p.Signed0())
    ensures buf == p.header + (p.bdbkey + (p.Signed0() + (p.headerSig + after)))
    ensures CheckKey(sub) == SUCCESS && p.subkey == sub[..U16(sub, 6)]
    ensures Verify(c, buf, kd) == VerifyData(c, sub, after, c.hash(p.bdbkey) != kd)
  {
    hide CheckHeader, CheckKey, VerifySigned, VerifyData, IsKey, IsSig, Signs;
    HeaderAtFront(buf);
    var h := U16(buf, 6);
    var bdbkey := buf[h..];
    KeyAtFront(bdbkey);
    var k := U16(bdbkey, 6);
    var oem := bdbkey[k..];
    var oem0, subkey, extra0, headerSig, r :=
      SignedCut(c, LeWord(buf, 24), LeWord(buf, 20), bdbkey, oem, c.hash(bdbkey[..k]) != kd);
    p := Parts(buf[..h], bdbkey[..k], oem0, subkey, extra0, headerSig, [], [], [], [], [], []);
    sub, after := oem[LeWord(buf, 24)..], r;
    FieldsOfPrefix(buf, h);
    SplitAt(buf, h);
    SplitAt(bdbkey, k);
  }

  /** A data structure and signature that pass, cut apart. */
  lemma DataCut(c: Crypto, sub: seq<byte>, s: seq<byte>, mismatch: bool, p: Parts) returns (r: Parts)
    requires CheckKey(sub) == SUCCESS && p.subkey == sub[..U16(sub, 6)]
    requires Good(VerifyData(c, sub, s, mismatch))
    ensures SecondHalf(r) && IsKey(r.subkey) && Signs(c, r.subkey, r.dataSig, r.Signed1())
    ensures s == r.Signed1() + (r.dataSig + r.rest)
    ensures r == p.(data := r.data, oem1 := r.oem1, hashes := r.hashes, extra1 := r.extra1, dataSig := r.dataSig, rest := r.rest)
    ensures VerifyData(c, sub, s, mismatch) == if mismatch then GOOD_OTHER_THAN_KEY else SUCCESS
  {
    hide CheckKey, CheckSig, CheckData, VerifySig, IsKey, IsSig, Signs, U8, U16, LeWord;
    DataFields(s);
    var n := LeWord(s, 20);
    var sig := s[n..];
    SigAtFront(sig);
    VerifySigAtFront(c, sub, sig, s[..n]);
    var a, b := U16(s, 6), U16(s, 6) + LeWord(s, 12);
    var d := b + U8(s, 16) * U8(s, 17);
    r := p.(data := s[..a], oem1 := s[a..b], hashes := s[b..d], extra1 := s[d..n],
            dataSig := sig[..U16(sig, 6)], rest := sig[U16(sig, 6)..]);
    FieldsOfPrefix(s, a);
    assert s[..a][32..160] == s[32..160];
    SplitThree(s, a, b, d);
    assert s[..n] == s[..d] + s[d..n];
    SplitAt(s, n);
    SplitAt(sig, U16(sig, 6));
  }

  lemma DataFields(s: seq<byte>)
    requires CheckData(s) == SUCCESS
    ensures |s| >= DATA_SIZE && U16(s, 6) >= DATA_SIZE && U8(s, 17) >= HASH_SIZE && U8(s, 16) * U8(s, 17) >= 0
    ensures U16(s, 6) + LeWord(s, 12) + U8(s, 16) * U8(s, 17) <= LeWord(s, 20) <= |s|
    ensures LeWord(s, 0) == DATA_MAGIC && U8(s, 4) == 1 && LeWord(s, 12) % 4 == 0 && 0 in s[32..160]
  {
    MulNonnegative(U8(s, 16), U8(s, 17));
  }

  lemma MulNonnegative(x: int, y: int)
    requires x >= 0 && y >= 0
    ensures x * y >= 0
  {
  }

  /** Every verified buffer is a block, with its parts in order, inside the buffer and disjoint. */
  lemma VerifiedIsBlock(c: Crypto, buf: seq<byte>, kd: seq<byte>) returns (p: Parts)
    requires Good(Verify(c, buf, kd)) && !SumWraps(buf)
    ensures Block(c, p) && p.Bytes() == buf
    ensures Verify(c, buf, kd) == if c.hash(p.bdbkey) == kd then SUCCESS else GOOD_OTHER_THAN_KEY
  {
    hide Verify, VerifyData, IsKey, IsSig, Signs, CheckKey;
    var q, sub, after := FirstCut(c, buf, kd);
    p := DataCut(c, sub, after, c.hash(q.bdbkey) != kd, q);
  }

  // The other direction

  lemma KeyFront(k: seq<byte>, r: seq<byte>)
    requires IsKey(k)
    ensures CheckKey(k + r) == SUCCESS && U16(k + r, 6) == |k| && (k + r)[..|k|] == k
  {
    hide CheckKey;
    var s := k + r;
    assert s[..|k|] == k;
    FieldsOfPrefix(s, |k|);
    KeyAtFront(s);
  }

  lemma SigFront(g: seq<byte>, r: seq<byte>)
    requires IsSig(g)
    ensures CheckSig(g + r) == SUCCESS && U16(g + r, 6) == |g| && LeWord(g + r, 12) == LeWord(g, 12) && (g + r)[..|g|] == g
  {
    hide CheckSig;
    var s := g + r;
    assert s[..|g|] == g;
    FieldsOfPrefix(s, |g|);
    SigAtFront(s);
  }

  lemma DataVerifies(c: Crypto, p: Parts, sub: seq<byte>, mismatch: bool)
    requires SecondHalf(p) && IsKey(p.subkey) && Signs(c, p.subkey, p.dataSig, p.Signed1())
    requires CheckKey(sub) == SUCCESS && p.subkey == sub[..U16(sub, 6)]
    ensures VerifyData(c, sub, p.Signed1() + (p.dataSig + p.rest), mismatch)
              == if mismatch then GOOD_OTHER_THAN_KEY else SUCCESS
  {
    var s := p.Signed1() + (p.dataSig + p.rest);
    DataFront(p, s);
    Front(p.Signed1(), p.dataSig + p.rest);
    hide CheckKey, CheckSig, CheckData, VerifySig, IsKey, IsSig, Signs, IsDataOf;
    SigFront(p.dataSig, p.rest);
    VerifySigAtFront(c, sub, p.dataSig + p.rest, p.Signed1());
  }

  lemma DataFront(p: Parts, s: seq<byte>)
    requires IsDataOf(p) && |p.Signed1()| <= |s| && s[..|p.Signed1()|] == p.Signed1()
    ensures CheckData(s) == SUCCESS && LeWord(s, 20) == |p.Signed1()|
  {
    var a := |p.data|;
    assert s[..a] == p.Signed1()[..a] == p.data;
    FieldsOfPrefix(s, a);
    assert s[32..160] == p.data[32..160];
  }

  lemma SignsSize(c: Crypto, key: seq<byte>, sig: seq<byte>, signed: seq<byte>)
    requires IsKey(key) && IsSig(sig) && Signs(c, key, sig, signed)
    ensures LeWord(sig, 12) == |signed|
  {
  }

  lemma SubkeyFront(oem0: seq<byte>, subkey: seq<byte>, extra0: seq<byte>, rest: seq<byte>)
    ensures (oem0 + subkey + extra0 + rest)[|oem0|..] == subkey + (extra0 + rest)
  {
  }

  /** The signed area in front of anything: verification goes on with what follows the signature. */
  lemma SignedFront(c: Crypto, bdbkey: seq<byte>, oem0: seq<byte>, subkey: seq<byte>, extra0: seq<byte>,
                    signed: seq<byte>, sig: seq<byte>, tail: seq<byte>, mismatch: bool)
    requires CheckKey(bdbkey) == SUCCESS && IsKey(bdbkey[..U16(bdbkey, 6)]) && IsKey(subkey) && IsSig(sig)
    requires signed == oem0 + subkey + extra0 && |signed| < BASE
    requires Signs(c, bdbkey[..U16(bdbkey, 6)], sig, signed)
    ensures var sub := subkey + (extra0 + (sig + tail));
            && CheckKey(sub) == SUCCESS && subkey == sub[..U16(sub, 6)]
            && VerifySigned(c, |oem0|, |signed|, bdbkey, signed + (sig + tail), mismatch) == VerifyData(c, sub, tail, mismatch)
  {
    hide CheckKey, CheckSig, VerifySig, VerifyData, IsKey, IsSig, Signs, U8, U16, LeWord;
    var oem, o := signed + (sig + tail), |oem0|;
    SubkeyFront(oem0, subkey, extra0, sig + tail);
    KeyFront(subkey, extra0 + (sig + tail));
    Front(signed, sig + tail);
    SigFront(sig, tail);
    Front(sig, tail);
    KeyAtFront(bdbkey);
    SignsSize(c, bdbkey[..U16(bdbkey, 6)], sig, signed);
    VerifySigAtFront(c, bdbkey, sig + tail, signed);
    SmallSum(o, |subkey|);
  }

  lemma SignedVerifies(c: Crypto, p: Parts, bdbkey: seq<byte>, mismatch: bool)
    requires Block(c, p)
    requires CheckKey(bdbkey) == SUCCESS && p.bdbkey == bdbkey[..U16(bdbkey, 6)]
    ensures var oem := p.Signed0() + (p.headerSig + (p.Signed1() + (p.dataSig + p.rest)));
            VerifySigned(c, |p.oem0|, |p.Signed0()|, bdbkey, oem, mismatch)
              == if mismatch then GOOD_OTHER_THAN_KEY else SUCCESS
  {
    hide CheckKey, VerifyData, VerifySigned, IsKey, IsSig, Signs, IsDataOf, Parts.Signed1;
    var tail := p.Signed1() + (p.dataSig + p.rest);
    SignedFront(c, bdbkey, p.oem0, p.subkey, p.extra0, p.Signed0(), p.headerSig, tail, mismatch);
    DataVerifies(c, p, p.subkey + (p.extra0 + (p.headerSig + tail)), mismatch);
  }

  lemma SmallSum(x: nat, y: nat)
    ensures x + y < BASE ==> (x + y) % BASE == x + y
  {
  }

  /** Every block verifies; only the key digest decides between the two good results. */
  lemma BlockVerifies(c: Crypto, p: Parts, kd: seq<byte>)
    requires Block(c, p)
    ensures Verify(c, p.Bytes(), kd) == if c.hash(p.bdbkey) == kd then SUCCESS else GOOD_OTHER_THAN_KEY
  {
    var buf := p.Bytes();
    var oem := p.Signed0() + (p.headerSig + (p.Signed1() + (p.dataSig + p.rest)));
    Front(p.header, p.bdbkey + oem);
    FieldsOfPrefix(buf, |p.header|);
    HeaderAtFront(buf);
    hide CheckHeader, CheckKey, VerifySigned, IsKey, IsSig, Signs;
    KeyFront(p.bdbkey, oem);
    Front(p.bdbkey, oem);
    SignedVerifies(c, p, p.bdbkey + oem, c.hash(p.bdbkey) != kd);
  }

  /** A layout states its signed area in 32 bits, so the size of what it holds is not cut. */
  lemma LayoutSums(p: Parts)
    requires Layout(p)
    ensures !SumWraps(p.Bytes())
  {
    hide IsKey, IsSig, IsDataOf, CheckKey, Parts.Signed1;
    var buf := p.Bytes();
    var after := p.headerSig + (p.Signed1() + (p.dataSig + p.rest));
    var oem := p.Signed0() + after;
    Front(p.header, p.bdbkey + oem);
    FieldsOfPrefix(buf, |p.header|);
    KeyFront(p.bdbkey, oem);
    Front(p.bdbkey, oem);
    assert oem[|p.oem0|..] == p.subkey + (p.extra0 + after);
    KeyFront(p.subkey, p.extra0 + after);
  }

  /**
   * Verification succeeds, up to the key digest, exactly on the blocks of the grammar and on what gets
   * past them by a 32-bit sum; below 2^32 bytes there is none of the latter.
   */
  lemma VerifyExact(c: Crypto, buf: seq<byte>, kd: seq<byte>)
    ensures Good(Verify(c, buf, kd)) && !SumWraps(buf) <==> exists p: Parts :: Block(c, p) && p.Bytes() == buf
    ensures Verify(c, buf, kd) == SUCCESS && !SumWraps(buf)
            <==> exists p: Parts :: Block(c, p) && p.Bytes() == buf && c.hash(p.bdbkey) == kd
    ensures |buf| < BASE && Good(Verify(c, buf, kd)) ==> !SumWraps(buf)
  {
    hide Verify, Block, Parts.Bytes, SumWraps;
    if Good(Verify(c, buf, kd)) && !SumWraps(buf) {
      var p := VerifiedIsBlock(c, buf, kd);
      assert Block(c, p) && p.Bytes() == buf;
    }
    forall p: Parts | Block(c, p) && p.Bytes() == buf
      ensures Good(Verify(c, buf, kd)) && !SumWraps(buf) && (c.hash(p.bdbkey) == kd ==> Verify(c, buf, kd) == SUCCESS)
    {
      BlockVerifies(c, p, kd);
      BlockSums(c, p);
    }
    if |buf| < BASE && Good(Verify(c, buf, kd)) {
      SmallBuffer(c, buf, kd);
    }
  }

  lemma BlockSums(c: Crypto, p: Parts)
    requires Block(c, p)
    ensures !SumWraps(p.Bytes())
  {
    LayoutSums(p);
  }

  lemma SmallBuffer(c: Crypto, buf: seq<byte>, kd: seq<byte>)
    requires |buf| < BASE && Good(Verify(c, buf, kd))
    ensures !SumWraps(buf)
  {
    hide VerifyData, VerifySig, CheckSig, CheckHeader, CheckKey;
    HeaderAtFront(buf);
    var bdbkey := buf[U16(buf, 6)..];
    KeyAtFront(bdbkey);
    var oem := bdbkey[U16(bdbkey, 6)..];
    KeyAtFront(oem[LeWord(buf, 24)..]);
  }

  /** Whether a laid-out block verifies is decided by its two signatures alone. */
  lemma LayoutVerifies(c: Crypto, p: Parts, kd: seq<byte>)
    requires Layout(p)
    ensures Good(Verify(c, p.Bytes(), kd)) <==> Block(c, p)
    ensures Verify(c, p.Bytes(), kd) == SUCCESS <==> Block(c, p) && c.hash(p.bdbkey) == kd
  {
    hide Verify, Parts.Bytes, SumWraps, FirstHalf, SecondHalf, Signs;
    LayoutSums(p);
    if Good(Verify(c, p.Bytes(), kd)) {
      var q := VerifiedIsBlock(c, p.Bytes(), kd);
      PartsUnique(p, q);
    }
    if Block(c, p) {
      BlockVerifies(c, p, kd);
    }
  }

  // A block can be cut in only one way

  lemma Peel(a: seq<byte>, r: seq<byte>, b: seq<byte>, t: seq<byte>)
    requires a + r == b + t && |a| == |b|
    ensures a == b && r == t
  {
    Front(a, r);
    Front(b, t);
  }

  /** Two structures with their own size at offset 6, in front of equal buffers, are equal. */
  lemma PeelSized(a: seq<byte>, r: seq<byte>, b: seq<byte>, t: seq<byte>)
    requires a + r == b + t && |a| >= 36 && |b| >= 36 && U16(a, 6) == |a| && U16(b, 6) == |b|
    ensures a == b && r == t
  {
    Front(a, r);
    Front(b, t);
    FieldsOfPrefix(a + r, |a|);
    FieldsOfPrefix(b + t, |b|);
    Peel(a, r, b, t);
  }

  lemma KeySize(k: seq<byte>)
    requires IsKey(k)
    ensures |k| >= 36 && U16(k, 6) == |k|
  {
  }

  lemma SigSize(g: seq<byte>)
    requires IsSig(g)
    ensures |g| >= 36 && U16(g, 6) == |g|
  {
  }

  lemma Signed0Unique(p: Parts, q: Parts)
    requires p.Signed0() == q.Signed0() && |p.oem0| == |q.oem0| && IsKey(p.subkey) && IsKey(q.subkey)
    ensures p.oem0 == q.oem0 && p.subkey == q.subkey && p.extra0 == q.extra0
  {
    hide IsKey;
    KeySize(p.subkey);
    KeySize(q.subkey);
    assert p.Signed0() == p.oem0 + (p.subkey + p.extra0) && q.Signed0() == q.oem0 + (q.subkey + q.extra0);
    Peel(p.oem0, p.subkey + p.extra0, q.oem0, q.subkey + q.extra0);
    PeelSized(p.subkey, p.extra0, q.subkey, q.extra0);
  }

  lemma Signed1Unique(p: Parts, q: Parts)
    requires IsDataOf(p) && IsDataOf(q) && p.data + (p.oem1 + (p.hashes + p.extra1)) == q.data + (q.oem1 + (q.hashes + q.extra1))
    ensures p.data == q.data && p.oem1 == q.oem1 && p.hashes == q.hashes && p.extra1 == q.extra1
  {
    PeelSized(p.data, p.oem1 + (p.hashes + p.extra1), q.data, q.oem1 + (q.hashes + q.extra1));
    Peel(p.oem1, p.hashes + p.extra1, q.oem1, q.hashes + q.extra1);
    Peel(p.hashes, p.extra1, q.hashes, q.extra1);
  }

  lemma DataSize(p: Parts, r: seq<byte>)
    requires IsDataOf(p)
    ensures |p.Signed1() + r| >= 24 && LeWord(p.Signed1() + r, 20) == |p.Signed1()|
    ensures p.Signed1() == p.data + (p.oem1 + (p.hashes + p.extra1))
  {
    var s := p.Signed1() + r;
    assert s[..|p.data|] == p.data;
    FieldsOfPrefix(s, |p.data|);
  }

  /** The parts of a layout are determined by its bytes. */
  lemma PartsUnique(p: Parts, q: Parts)
    requires Layout(p) && Layout(q) && p.Bytes() == q.Bytes()
    ensures p == q
  {
    var t1, u1 := p.dataSig + p.rest, q.dataSig + q.rest;
    var t0, u0 := p.headerSig + (p.Signed1() + t1), q.headerSig + (q.Signed1() + u1);
    PeelSized(p.header, p.bdbkey + (p.Signed0() + t0), q.header, q.bdbkey + (q.Signed0() + u0));
    hide IsKey, IsSig, Signs, IsDataOf, Parts.Signed0, Parts.Signed1;
    KeySize(p.bdbkey);
    KeySize(q.bdbkey);
    PeelSized(p.bdbkey, p.Signed0() + t0, q.bdbkey, q.Signed0() + u0);
    Peel(p.Signed0(), t0, q.Signed0(), u0);
    Signed0Unique(p, q);
    SigSize(p.headerSig);
    SigSize(q.headerSig);
    PeelSized(p.headerSig, p.Signed1() + t1, q.headerSig, q.Signed1() + u1);
    DataSize(p, t1);
    DataSize(q, u1);
    Peel(p.Signed1(), t1, q.Signed1(), u1);
    Signed1Unique(p, q);
    SigSize(p.dataSig);
    SigSize(q.dataSig);
    PeelSized(p.dataSig, p.rest, q.dataSig, q.rest);
  }
}
