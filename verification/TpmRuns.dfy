/** What holds of the device over every run of register accesses. */
module TpmRuns {
  import opened Words
  import opened TpmDevice

  predicate IsGo(a: Access)
  {
    a.cmd == WR && a.addr == STS_ADDR && a.data == STS_GO
  }

  /** The value an access leaves in PCR p: only a GO that executes an Extend of p changes it. */
  lemma PcrAfterStep(sha1: HashFn, d: Device, a: Access, p: nat)
    requires Inv(d) && p < 24
    ensures var c := Decode(d);
            PcrAt(Step(sha1, d, a).pcr, p)
              == if IsGo(a) && c.Extend? && c.index == p then sha1(PcrAt(d.pcr, p) + c.digest) else PcrAt(d.pcr, p)
  {
    hide PcrAt, SetPcr;
    var c := Decode(d);
    if IsGo(a) && c.Extend? {
      PcrSet(d.pcr, c.index, sha1(PcrAt(d.pcr, c.index) + c.digest), p);
    }
  }

  /** No PCR changes except by a GO while accepting, with exactly the announced number of bytes. */
  lemma PcrChangesOnlyOnGo(sha1: HashFn, d: Device, a: Access)
    requires Inv(d)
    requires Step(sha1, d, a).pcr != d.pcr
    ensures IsGo(a) && d.state == Accepting && d.inAmt == d.cmdSize && d.inAmt < FIFO_MAX
    ensures d.indata[6..10] == [0, 0, 0, 0x14] && d.indata[13] <= 23
  {
    assert d.indata[6..10] == [d.indata[6], d.indata[7], d.indata[8], d.indata[9]];
  }

  /** The PCR value after extending by each digest in turn. */
  ghost function Fold(sha1: HashFn, v: seq<byte>, digests: seq<seq<byte>>): seq<byte>
  {
    if |digests| == 0 then v
    else sha1(Fold(sha1, v, digests[..|digests| - 1]) + digests[|digests| - 1])
  }

  lemma FoldSnoc(sha1: HashFn, v: seq<byte>, digests: seq<seq<byte>>, x: seq<byte>)
    ensures Fold(sha1, v, digests + [x]) == sha1(Fold(sha1, v, digests) + x)
  {
    assert (digests + [x])[..|digests|] == digests;
  }

  /** The digests that Extend commands executed during a run name for PCR p, in order. */
  ghost function Executed(sha1: HashFn, d: Device, log: seq<Access>, p: nat): seq<seq<byte>>
    requires Inv(d)
  {
    if |log| == 0 then []
    else
      var before := log[..|log| - 1];
      var c := Decode(Run(sha1, d, before));
      Executed(sha1, d, before, p)
      + if IsGo(log[|log| - 1]) && c.Extend? && c.index == p then [c.digest] else []
  }

  /** Over every run, each PCR is the fold of SHA-1 over exactly the executed Extends of it. */
  lemma {:induction false} PcrIsFold(sha1: HashFn, d: Device, log: seq<Access>, p: nat)
    requires Inv(d) && p < 24
    ensures PcrAt(Run(sha1, d, log).pcr, p) == Fold(sha1, PcrAt(d.pcr, p), Executed(sha1, d, log, p))
  {
    hide Step, PcrAt;
    if |log| > 0 {
      var before := log[..|log| - 1];
      PcrIsFold(sha1, d, before, p);
      var d' := Run(sha1, d, before);
      PcrAfterStep(sha1, d', log[|log| - 1], p);
      var c := Decode(d');
      if IsGo(log[|log| - 1]) && c.Extend? && c.index == p {
        FoldSnoc(sha1, PcrAt(d.pcr, p), Executed(sha1, d, before, p), c.digest);
      } else {
        assert Executed(sha1, d, before, p) + [] == Executed(sha1, d, before, p);
      }
    }
  }

  /** Over every run from reset: bounds, the full state, the status byte, and the cells never written. */
  lemma EveryRun(sha1: HashFn, log: seq<Access>)
    ensures Inv(InitDevice())
    ensures var d := Run(sha1, InitDevice(), log);
            && d.inAmt <= 126 && (d.inAmt == 126 <==> d.state == Full)
            && d.outAmt <= 30 && d.state != Working
            && (|log| > 0 ==> d.sts == Status(d) && d.sts >= STS_VALID)
            && QuietCells(d.outdata)
  {
    hide Run;
  }

  // Replies

  /** Tag, size and return code of a good reply. */
  const OK_HEADER: seq<byte> := [0x00, 0xC4, 0x00, 0x00, 0x00, 0x1E, 0x00, 0x00, 0x00, 0x00]

  /** The bytes that reading the data register k times returns. */
  ghost function Drained(d: Device, k: nat): (s: seq<byte>)
    requires Inv(d)
    ensures |s| == k
  {
    seq(k, j requires 0 <= j < k => if d.state == Sending && j < d.outAmt then d.outdata[d.outAmt - j] else 0)
  }

  /** A reply announces its own size in its sixth byte. */
  ghost predicate HasReply(d: Device)
    requires Inv(d)
  {
    d.state == Sending && 7 <= d.outAmt && d.outdata[d.outAmt - 5] == d.outAmt
  }

  /** Whatever was sent before, executing a command leaves a complete reply. */
  lemma ExecuteReplies(sha1: HashFn, d: Device)
    requires Inv(d)
    ensures Inv(Execute(sha1, d)) && HasReply(Execute(sha1, d))
    ensures Execute(sha1, d).outAmt == if Decode(d).Malformed? then ERROR_SIZE else REPLY_SIZE
  {
  }

  /** Stale cells never show in a good reply: it is exactly header, size, code 0 and PCR value. */
  lemma GoodReply(sha1: HashFn, d: Device)
    requires Inv(d) && !Decode(d).Malformed?
    ensures var d' := Execute(sha1, d);
            Inv(d') && Drained(d', REPLY_SIZE)
              == OK_HEADER + PcrAt(d'.pcr, Decode(d).index)
  {
    var d', i := Execute(sha1, d), Decode(d).index;
    if Decode(d).Extend? {
      PcrSet(d.pcr, i, sha1(PcrAt(d.pcr, i) + Decode(d).digest), i);
    }
    var v := PcrAt(d'.pcr, i);
    assert d'.outdata == Reply(d.outdata, v);
    hide PcrAt, SetPcr, Execute, Decode;
    var s := Drained(d', REPLY_SIZE);
    forall j | 0 <= j < 20 ensures s[10 + j] == v[j] {
    }
    assert s[..10] == OK_HEADER;
    assert s[10..] == v;
    assert s == s[..10] + s[10..];
  }

  /** Of an error reply only the tag and the size are fixed. */
  lemma ErrorReply(sha1: HashFn, d: Device)
    requires Inv(d) && Decode(d).Malformed?
    ensures var d' := Execute(sha1, d);
            Inv(d') && d'.pcr == d.pcr && Drained(d', ERROR_SIZE)[1] == 0xC4 && Drained(d', ERROR_SIZE)[5] == 9
  {
  }
}
