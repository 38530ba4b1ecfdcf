/** What a whole session of requests does to the PCRs, in terms of the requests alone. */
module TpmSession {
  import opened Words
  import opened TpmDevice
  import opened TpmRuns
  import opened TpmDriver

  /** Byte i of a request, with zeros after its end. */
  function ByteOf(req: seq<byte>, i: nat): byte
  {
    if i < |req| then req[i] else 0
  }

  /** The digest field of a request, zero-filled when the request is short. */
  function DigestOf(req: seq<byte>): (s: seq<byte>)
    ensures |s| == 20
  {
    seq(20, j requires 0 <= j < 20 => ByteOf(req, 14 + j))
  }

  /** The request is a complete command with the given ordinal for PCR p. */
  predicate Commands(req: seq<byte>, ordinal: byte, p: nat)
  {
    && 7 <= |req| < FIFO_MAX && req[5] == |req|
    && ByteOf(req, 6) == 0 && ByteOf(req, 7) == 0 && ByteOf(req, 8) == 0 && ByteOf(req, 9) == ordinal
    && ByteOf(req, 13) == p < 24
  }

  /** What the device decodes depends on the request only, not on anything sent before. */
  lemma DecodeLoaded(d: Device, req: seq<byte>)
    requires Inv(d)
    ensures var c := Decode(Loaded(d, req));
            && (forall p :: Commands(req, 0x14, p) ==> c == Extend(p, DigestOf(req)))
            && (forall p :: Commands(req, 0x15, p) ==> c == Read(p))
            && (c.Extend? ==> Commands(req, 0x14, c.index))
            && (c.Read? ==> Commands(req, 0x15, c.index))
  {
    var l := Loaded(d, req);
    LoadedCells(d, req);
    assert Commands(req, 0x14, ByteOf(req, 13)) ==> l.indata[14..34] == DigestOf(req);
  }

  lemma LoadedCells(d: Device, req: seq<byte>)
    requires Inv(d)
    ensures |req| < FIFO_MAX ==> forall i :: 0 <= i < FIFO_MAX ==> Loaded(d, req).indata[i] == ByteOf(req, i)
  {
  }

  /** The PCR bank after the driver has handled a request. */
  ghost function BankAfter(sha1: HashFn, d: Device, req: seq<byte>): (r: seq<byte>)
    requires Inv(d)
    ensures |r| == 480
  {
    if Accepted(d.cmdSize, req) then Answered(sha1, d, req).pcr else d.pcr
  }

  /** One request changes PCR p exactly when it is a complete Extend of p, by hashing in its digest. */
  lemma RequestEffect(sha1: HashFn, d: Device, req: seq<byte>, p: nat)
    requires Inv(d) && p < 24
    ensures PcrAt(BankAfter(sha1, d, req), p)
              == if Commands(req, 0x14, p) then sha1(PcrAt(d.pcr, p) + DigestOf(req)) else PcrAt(d.pcr, p)
  {
    hide PcrAt, Step, Decode, DigestOf;
    if Accepted(d.cmdSize, req) {
      DecodeLoaded(d, req);
      PcrAfterStep(sha1, Loaded(d, req), Access(WR, STS_ADDR, STS_GO), p);
    }
  }

  /** After any history, a complete Extend or Read of PCR p is answered with exactly its value. */
  lemma ReplyToCommand(sha1: HashFn, d: Device, req: seq<byte>, p: nat)
    requires Inv(d)
    requires Commands(req, 0x14, p) || Commands(req, 0x15, p)
    ensures Accepted(d.cmdSize, req)
    ensures var r := Answered(sha1, d, req);
            && r.outAmt == REPLY_SIZE
            && Drained(r, REPLY_SIZE)
                 == OK_HEADER + PcrAt(r.pcr, p)
  {
    DecodeLoaded(d, req);
    AnsweredReplies(sha1, d, req);
    GoodReply(sha1, Loaded(d, req));
    hide Loaded, Decode, Execute, PcrAt;
    DrainedStatus(Execute(sha1, Loaded(d, req)), REPLY_SIZE) by { ExecuteReplies(sha1, Loaded(d, req)); }
  }

  /** The status byte plays no part in what is read from the data register. */
  lemma DrainedStatus(d: Device, k: nat)
    requires Inv(d)
    ensures Drained(d.(sts := Status(d)), k) == Drained(d, k)
  {
  }

  /** The digests that a sequence of requests extends PCR p by. */
  ghost function Extensions(reqs: seq<seq<byte>>, p: nat): seq<seq<byte>>
  {
    if |reqs| == 0 then []
    else
      var last := reqs[|reqs| - 1];
      Extensions(reqs[..|reqs| - 1], p) + if Commands(last, 0x14, p) then [DigestOf(last)] else []
  }

  lemma ExtensionsSnoc(sha1: HashFn, v: seq<byte>, reqs: seq<seq<byte>>, req: seq<byte>, p: nat)
    ensures Fold(sha1, v, Extensions(reqs + [req], p))
              == if Commands(req, 0x14, p) then sha1(Fold(sha1, v, Extensions(reqs, p)) + DigestOf(req))
                 else Fold(sha1, v, Extensions(reqs, p))
  {
    hide DigestOf, Commands;
    assert (reqs + [req])[..|reqs|] == reqs;
    if Commands(req, 0x14, p) {
      FoldSnoc(sha1, v, Extensions(reqs, p), DigestOf(req));
    } else {
      assert Extensions(reqs, p) + [] == Extensions(reqs, p);
    }
  }

  /** The bank holds, in every PCR, the fold over the requests that extend it. */
  ghost predicate Folded(sha1: HashFn, bank0: seq<byte>, reqs: seq<seq<byte>>, bank: seq<byte>)
  {
    |bank0| == 480 && |bank| == 480
    && forall p :: 0 <= p < 24 ==> PcrAt(bank, p) == Fold(sha1, PcrAt(bank0, p), Extensions(reqs, p))
  }

  lemma FoldedStep(sha1: HashFn, bank0: seq<byte>, reqs: seq<seq<byte>>, d: Device, req: seq<byte>)
    requires Inv(d)
    requires Folded(sha1, bank0, reqs, d.pcr)
    ensures Folded(sha1, bank0, reqs + [req], BankAfter(sha1, d, req))
  {
    hide PcrAt, BankAfter, Extensions, Fold, DigestOf, Commands;
    forall p | 0 <= p < 24
      ensures PcrAt(BankAfter(sha1, d, req), p) == Fold(sha1, PcrAt(bank0, p), Extensions(reqs + [req], p))
    {
      RequestEffect(sha1, d, req, p);
      ExtensionsSnoc(sha1, PcrAt(bank0, p), reqs, req, p);
    }
  }

  /** A complete Extend or Read of PCR p. */
  predicate IsCommand(req: seq<byte>, p: nat)
  {
    Commands(req, 0x14, p) || Commands(req, 0x15, p)
  }

  /** One exchange: a complete command with room for the reply is answered with the value that the PCR then has. */
  method Exchange(tpm: Tpm, request: seq<byte>, response: array<byte>, response_length: word) returns (ret: int)
    requires tpm.Valid() && Inv(tpm.Abs()) && 1 <= |request| < FAILED && response_length <= response.Length
    requires response != tpm.fifo_indata && response != tpm.fifo_outdata && response != tpm.pcr_data
    modifies tpm, tpm.fifo_indata, tpm.fifo_outdata, tpm.pcr_data, response
    ensures tpm.Valid() && Inv(tpm.Abs()) && tpm.Abs().pcr == BankAfter(tpm.sha1, old(tpm.Abs()), request)
    ensures forall p :: 0 <= p < 24 && IsCommand(request, p) && REPLY_SIZE <= response_length < 0x8000_0000 ==>
              ret == 0 && response[..REPLY_SIZE] == OK_HEADER + PcrAt(tpm.Abs().pcr, p)
  {
    hide PcrAt, Tpm.Valid, Drained, GoCount, Answered, Commands, Accepted;
    ghost var d := tpm.Abs();
    ret := SendReceive(tpm, request, response, response_length);
    forall p | 0 <= p < 24 && IsCommand(request, p) && REPLY_SIZE <= response_length < 0x8000_0000
      ensures ret == 0 && response[..REPLY_SIZE] == OK_HEADER + PcrAt(tpm.Abs().pcr, p)
    {
      ReplyToCommand(tpm.sha1, d, request, p);
    }
  }

  /** The answer to request i: for a command with room for the reply, the fold over the requests up to it. */
  ghost predicate AnsweredWell(sha1: HashFn, bank0: seq<byte>, requests: seq<seq<byte>>, i: nat, length: word,
                               ret: int, answer: seq<byte>)
    requires i < |requests| && |bank0| == 480
  {
    REPLY_SIZE <= length < 0x8000_0000 ==>
      forall p :: 0 <= p < 24 && IsCommand(requests[i], p) ==>
        && ret == 0 && |answer| >= REPLY_SIZE
        && answer[..REPLY_SIZE] == OK_HEADER + Fold(sha1, PcrAt(bank0, p), Extensions(requests[..i + 1], p))
  }

  /**
   * Any session: afterwards each PCR is the fold over exactly the complete Extends naming it, and every
   * command on the way was answered with the fold up to there.
   */
  method Session(tpm: Tpm, requests: seq<seq<byte>>, lengths: seq<word>)
    returns (rets: seq<int>, answers: seq<seq<byte>>)
    requires tpm.Valid() && Inv(tpm.Abs()) && |lengths| == |requests|
    requires forall i :: 0 <= i < |requests| ==> 1 <= |requests[i]| < FAILED
    modifies tpm, tpm.fifo_indata, tpm.fifo_outdata, tpm.pcr_data
    ensures tpm.Valid() && |rets| == |answers| == |requests|
    ensures Folded(tpm.sha1, old(tpm.Abs()).pcr, requests, tpm.Abs().pcr)
    ensures forall i :: 0 <= i < |requests| ==>
              AnsweredWell(tpm.sha1, old(tpm.Abs()).pcr, requests, i, lengths[i], rets[i], answers[i])
  {
    hide PcrAt, Extensions, Fold, Tpm.Valid, GoCount, Folded, BankAfter, IsCommand, AnsweredWell;
    ghost var bank0 := tpm.Abs().pcr;
    FoldedStart(tpm.sha1, bank0);
    rets, answers := [], [];
    var i := 0;
    while i < |requests|
      invariant 0 <= i <= |requests| && |rets| == |answers| == i
      invariant tpm.Valid() && Inv(tpm.Abs())
      invariant Folded(tpm.sha1, bank0, requests[..i], tpm.Abs().pcr)
      invariant forall j :: 0 <= j < i ==>
                  AnsweredWell(tpm.sha1, bank0, requests, j, lengths[j], rets[j], answers[j])
    {
      ghost var d := tpm.Abs();
      var response := new byte[lengths[i]];
      var ret := Exchange(tpm, requests[i], response, lengths[i]);
      FoldedStep(tpm.sha1, bank0, requests[..i], d, requests[i]);
      assert requests[..i + 1] == requests[..i] + [requests[i]];
      AnswerFolded(tpm.sha1, bank0, requests, i, lengths[i], ret, response[..], tpm.Abs().pcr);
      rets, answers := rets + [ret], answers + [response[..]];
      i := i + 1;
    }
    assert requests[..i] == requests;
  }

  lemma AnswerFolded(sha1: HashFn, bank0: seq<byte>, requests: seq<seq<byte>>, i: nat, length: word,
                     ret: int, answer: seq<byte>, bank: seq<byte>)
    requires i < |requests| && |bank0| == |bank| == 480 && length <= |answer|
    requires Folded(sha1, bank0, requests[..i + 1], bank)
    requires forall p :: 0 <= p < 24 && IsCommand(requests[i], p) && REPLY_SIZE <= length < 0x8000_0000 ==>
               ret == 0 && answer[..REPLY_SIZE] == OK_HEADER + PcrAt(bank, p)
    ensures AnsweredWell(sha1, bank0, requests, i, length, ret, answer)
  {
    hide PcrAt, Extensions, Fold, IsCommand;
  }

  lemma FoldedStart(sha1: HashFn, bank: seq<byte>)
    requires |bank| == 480
    ensures Folded(sha1, bank, [], bank)
  {
  }

  /**
   * The driver asserts before GO that the device holds the whole request and nothing else. For the
   * requests it takes as sent, that is true exactly in these cases; all requests from 7 bytes on are.
   */
  lemma SentInFull(d: Device, req: seq<byte>)
    requires Inv(d) && Accepted(d.cmdSize, req)
    ensures Loaded(d, req).inAmt == |req|
    ensures Loaded(d, req).indata[..|req|] == req
    ensures Loaded(d, req).inAmt == Loaded(d, req).cmdSize
            <==> |req| >= 7 || |req| == 5 || (|req| == 6 && req[5] == 6) || (|req| == 4 && d.cmdSize == 4)
  {
    assert (req + Zeros(126 - |req|))[..|req|] == req;
  }

  /** What the driver asserts after sending: the device is replying and its input is still the request. */
  lemma RequestKept(sha1: HashFn, d: Device, req: seq<byte>)
    requires Inv(d) && Accepted(d.cmdSize, req)
    ensures var r := Answered(sha1, d, req); r.state == Sending && r.indata[..|req|] == req
  {
    assert (req + Zeros(126 - |req|))[..|req|] == req;
    AnsweredReplies(sha1, d, req);
  }

  /** One of the others: a fresh device takes a 4-byte request as sent, against its command size of 0. */
  lemma ShortRequestMisjudged(req: seq<byte>)
    requires |req| == 4
    ensures Inv(InitDevice()) && Accepted(InitDevice().cmdSize, req)
    ensures Loaded(InitDevice(), req).inAmt != Loaded(InitDevice(), req).cmdSize
  {
  }

  // One byte too many

  /** The accesses that load a request. */
  ghost function LoadLog(req: seq<byte>): seq<Access>
  {
    if |req| == 0 then [Access(WR, STS_ADDR, STS_COMMAND_READY)]
    else LoadLog(req[..|req| - 1]) + [Access(WR, FIFO_ADDR, req[|req| - 1])]
  }

  lemma {:induction false} LoadedRun(sha1: HashFn, d: Device, req: seq<byte>)
    requires Inv(d)
    ensures Run(sha1, d, LoadLog(req)) == Loaded(d, req)
  {
    hide Step, Loaded, Inv;
    if |req| == 0 {
      LoadReady(sha1, d);
      RunSnoc(sha1, d, [], Access(WR, STS_ADDR, STS_COMMAND_READY));
      assert req == [];
    } else {
      var n := |req| - 1;
      LoadedRun(sha1, d, req[..n]);
      LoadByte(sha1, d, req[..n], req[n]);
      RunSnoc(sha1, d, LoadLog(req[..n]), Access(WR, FIFO_ADDR, req[n]));
      assert req[..n] + [req[n]] == req;
    }
  }

  ghost function ReadLog(k: nat): seq<Access>
  {
    seq(k, _ => Access(RD, FIFO_ADDR, 0))
  }

  lemma {:induction false} PoppedRun(sha1: HashFn, d: Device, log: seq<Access>, r: Device, k: nat)
    requires Inv(d) && Inv(r) && Run(sha1, d, log) == r && r.sts == Status(r)
    ensures Run(sha1, d, log + ReadLog(k)) == Popped(r, k)
  {
    hide Step, Run, Inv;
    if k == 0 {
      assert log + ReadLog(0) == log;
    } else {
      PoppedRun(sha1, d, log, r, k - 1);
      PopByte(sha1, r, k - 1);
      RunSnoc(sha1, d, log + ReadLog(k - 1), Access(RD, FIFO_ADDR, 0));
      assert log + ReadLog(k) == (log + ReadLog(k - 1)) + [Access(RD, FIFO_ADDR, 0)];
    }
  }

  /** An exchange never gets there: whatever was sent, it goes on to receive a complete reply. */
  lemma ExchangeReadsNoMore(sha1: HashFn, d: Device, req: seq<byte>, count: int)
    requires Inv(d)
    ensures !ReadsOneMore(Answered(sha1, d, req), count)
  {
    hide Answered, Drained, Inv;
    AnsweredReplies(sha1, d, req);
    ReplySize(Answered(sha1, d, req));
  }

  /** A Read of PCR 0. */
  const READ_ZERO: seq<byte> := [0x00, 0xC1, 0, 0, 0, 14, 0, 0, 0, 0x15, 0, 0, 0, 0]

  /** From reset: a Read of PCR 0 is answered, six bytes of the reply are taken, and a reply of six is asked for. */
  lemma OneMoreReached(sha1: HashFn)
    ensures Inv(InitDevice())
    ensures var log := LoadLog(READ_ZERO) + [Access(WR, STS_ADDR, STS_GO)] + ReadLog(6);
            ReadsOneMore(Run(sha1, InitDevice(), log), 6)
  {
    hide Run, Step, Decode, Execute, LoadLog, ReadLog;
    var d := InitDevice();
    LoadedRun(sha1, d, READ_ZERO);
    RunSnoc(sha1, d, LoadLog(READ_ZERO), Access(WR, STS_ADDR, STS_GO));
    var r := Answered(sha1, d, READ_ZERO);
    AnsweredReplies(sha1, d, READ_ZERO);
    PoppedRun(sha1, d, LoadLog(READ_ZERO) + [Access(WR, STS_ADDR, STS_GO)], r, 6);
    ReplyToCommand(sha1, d, READ_ZERO, 0);
    RequestEffect(sha1, d, READ_ZERO, 0);
    assert Drained(r, 30)[11] == PcrAt(r.pcr, 0)[1] == 0;
    assert Drained(Popped(r, 6), 6)[5] == Drained(r, 30)[11];
  }
}
