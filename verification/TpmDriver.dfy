/** The firmware driver: it reaches the device only through single-byte register accesses. */
module TpmDriver {
  import opened Words
  import opened TpmDevice
  import opened TpmRuns

  const FAILED: word := 0xFFFF_FFFF
  const BURST: nat := 256

  // The device while a command is being loaded

  /** The device after COMMAND_READY and the bytes s: nothing of earlier commands is left. */
  ghost function Loaded(d: Device, s: seq<byte>): (r: Device)
    requires Inv(d)
    ensures Inv(r)
  {
    var m := if |s| < FIFO_MAX then |s| else FIFO_MAX;
    var r := Device(if m == FIFO_MAX then Full else Accepting, m, if |s| > 5 then s[5] else d.cmdSize, 0, 0,
                    s[..m] + Zeros(126 - m), d.outdata, d.pcr);
    r.(sts := Status(r))
  }

  lemma LoadReady(sha1: HashFn, d: Device)
    requires Inv(d)
    ensures Step(sha1, d, Access(WR, STS_ADDR, STS_COMMAND_READY)) == Loaded(d, [])
  {
    assert [] + Zeros(126) == Zeros(126);
  }

  lemma LoadByte(sha1: HashFn, d: Device, s: seq<byte>, b: byte)
    requires Inv(d)
    ensures Step(sha1, Loaded(d, s), Access(WR, FIFO_ADDR, b)) == Loaded(d, s + [b])
  {
    hide Zeros;
    var m := if |s| < FIFO_MAX then |s| else FIFO_MAX;
    if |s| < FIFO_MAX {
      assert (s[..m] + Zeros(126 - m))[m := b] == (s + [b])[..m + 1] + Zeros(125 - m);
    } else {
      assert (s + [b])[..m] == s[..m];
    }
  }

  lemma PollLoaded(sha1: HashFn, d: Device, s: seq<byte>)
    requires Inv(d)
    ensures Step(sha1, Loaded(d, s), Access(RD, STS_ADDR, 0)) == Loaded(d, s)
    ensures Loaded(d, s).sts == Status(Loaded(d, s))
  {
  }

  /**
   * Which requests the driver reports as sent. From 7 bytes on it is the announced size that counts;
   * a shorter request ends before or at the size byte, and a size left from an earlier command decides.
   */
  predicate Accepted(cmdSize: nat, buf: seq<byte>)
  {
    if |buf| >= 7 then buf[5] == |buf| <= FIFO_MAX
    else if |buf| == 6 then cmdSize > 5 && buf[5] <= 6
    else if |buf| == 5 then cmdSize == 5
    else |buf| == 4 && cmdSize <= 4
  }

  /** Giving up after a burst, because no more data is expected, happens only to requests not accepted. */
  lemma StoppedEarly(d: Device, buf: seq<byte>, count: nat)
    requires Inv(d) && 1 <= count < |buf|
    requires count == |buf| - 1 || count >= BURST
    requires !Expecting(Loaded(d, buf[..count]))
    ensures !Accepted(d.cmdSize, buf)
  {
  }

  lemma StoppedLate(d: Device, buf: seq<byte>)
    requires Inv(d) && 1 <= |buf|
    requires |buf| > 1 ==> Expecting(Loaded(d, buf[..|buf| - 1]))
    ensures Expecting(Loaded(d, buf)) <==> !Accepted(d.cmdSize, buf)
  {
    assert buf[..|buf|] == buf;
  }

  /** How many times a command was started. */
  ghost function GoCount(log: seq<Access>): nat
  {
    if |log| == 0 then 0 else GoCount(log[..|log| - 1]) + if IsGo(log[|log| - 1]) then 1 else 0
  }

  lemma GoCountSnoc(log: seq<Access>, a: Access)
    ensures GoCount(log + [a]) == GoCount(log) + if IsGo(a) then 1 else 0
  {
    assert (log + [a])[..|log|] == log;
  }

  // Register access

  method Read8(tpm: Tpm, addr: word) returns (v: nat)
    requires tpm.Valid()
    modifies tpm, tpm.fifo_indata, tpm.fifo_outdata, tpm.pcr_data
    ensures tpm.Valid() && GoCount(tpm.log) == GoCount(old(tpm.log))
    ensures tpm.Abs() == Step(tpm.sha1, old(tpm.Abs()), Access(RD, addr, 0))
    ensures v == ReadValue(old(tpm.Abs()), addr)
  {
    GoCountSnoc(tpm.log, Access(RD, addr, 0));
    v := tpm.Update(RD, addr, 0);
  }

  method Write8(tpm: Tpm, data: byte, addr: word)
    requires tpm.Valid()
    modifies tpm, tpm.fifo_indata, tpm.fifo_outdata, tpm.pcr_data
    ensures tpm.Valid()
    ensures GoCount(tpm.log) == GoCount(old(tpm.log)) + if IsGo(Access(WR, addr, data)) then 1 else 0
    ensures tpm.Abs() == Step(tpm.sha1, old(tpm.Abs()), Access(WR, addr, data))
  {
    GoCountSnoc(tpm.log, Access(WR, addr, data));
    var _ := tpm.Update(WR, addr, data);
  }

  /** The bits of a status byte that the driver tests. */
  predicate HasValid(status: nat) { status / STS_VALID % 2 == 1 }
  predicate HasExpect(status: nat) { status / STS_DATA_EXPECT % 2 == 1 }
  predicate HasAvail(status: nat) { status / STS_DATA_AVAIL % 2 == 1 }

  lemma StatusBits(d: Device)
    requires d.state != Working
    ensures HasValid(Status(d))
    ensures HasExpect(Status(d)) <==> Expecting(d)
    ensures HasAvail(Status(d)) <==> d.outAmt > 0
  {
  }

  /** Waits for a valid status. The wait ends at the first read, because the device is never working. */
  method WaitValid(tpm: Tpm, ghost d: Device, ghost s: seq<byte>) returns (status: nat)
    requires tpm.Valid() && Inv(d) && tpm.Abs() == Loaded(d, s)
    modifies tpm, tpm.fifo_indata, tpm.fifo_outdata, tpm.pcr_data
    ensures tpm.Valid() && tpm.Abs() == Loaded(d, s)
    ensures GoCount(tpm.log) == GoCount(old(tpm.log))
    ensures HasExpect(status) <==> Expecting(Loaded(d, s))
  {
    hide GoCount, Loaded, Step, Inv;
    status := 0;
    PollLoaded(tpm.sha1, d, s);
    while !HasValid(status)
      invariant tpm.Valid() && tpm.Abs() == Loaded(d, s)
      invariant GoCount(tpm.log) == GoCount(old(tpm.log))
      invariant HasValid(status) ==> status == Status(Loaded(d, s))
      decreases if HasValid(status) then 0 else 1
    {
      status := Read8(tpm, STS_ADDR);
      assert Inv(Loaded(d, s));
      StatusBits(Loaded(d, s)) by { NeverWorking(Loaded(d, s)); }
    }
    StatusBits(Loaded(d, s)) by { NeverWorking(Loaded(d, s)); }
  }

  lemma NeverWorking(d: Device)
    requires Inv(d)
    ensures d.state != Working
  {
  }

  method Send(tpm: Tpm, buf: seq<byte>) returns (ret: word)
    requires tpm.Valid() && 1 <= |buf| < FAILED
    modifies tpm, tpm.fifo_indata, tpm.fifo_outdata, tpm.pcr_data
    ensures tpm.Valid() && Inv(old(tpm.Abs()))
    ensures ret == |buf| || ret == FAILED
    ensures ret == |buf| <==> Accepted(old(tpm.fifo_in_cmdsize), buf)
    ensures ret == |buf| ==>
              && tpm.Abs() == Step(tpm.sha1, Loaded(old(tpm.Abs()), buf), Access(WR, STS_ADDR, STS_GO))
              && GoCount(tpm.log) == GoCount(old(tpm.log)) + 1
    ensures ret != |buf| ==>
              && GoCount(tpm.log) == GoCount(old(tpm.log))
              && exists count :: 0 <= count <= |buf| && tpm.Abs() == Loaded(old(tpm.Abs()), buf[..count])
  {
    hide GoCount, Loaded, Step, Inv, Accepted;
    ghost var d := tpm.Abs();
    var count := 0;
    LoadReady(tpm.sha1, d);
    Write8(tpm, STS_COMMAND_READY, STS_ADDR);
    assert buf[..0] == [];
    while count < |buf| - 1
      invariant 0 <= count <= |buf| - 1
      invariant tpm.Valid() && tpm.Abs() == Loaded(d, buf[..count])
      invariant GoCount(tpm.log) == GoCount(old(tpm.log))
      invariant count > 0 ==> (count == |buf| - 1 || count >= BURST) && Expecting(Loaded(d, buf[..count]))
    {
      count := SendBurst(tpm, buf, count, d);
      var status := WaitValid(tpm, d, buf[..count]);
      if !HasExpect(status) {
        StoppedEarly(d, buf, count);
        return FAILED;
      }
    }
    LoadByte(tpm.sha1, d, buf[..count], buf[count]);
    assert buf[..count] + [buf[count]] == buf;
    Write8(tpm, buf[count], FIFO_ADDR);
    var status := WaitValid(tpm, d, buf);
    StoppedLate(d, buf);
    if HasExpect(status) {
      assert buf[..|buf|] == buf;
      return FAILED;
    }
    Write8(tpm, STS_GO, STS_ADDR);
    return |buf|;
  }

  /** Writes up to one burst of bytes, leaving the last byte of the request for later. */
  method SendBurst(tpm: Tpm, buf: seq<byte>, count0: nat, ghost d: Device) returns (count: nat)
    requires tpm.Valid() && Inv(d) && count0 < |buf| - 1
    requires tpm.Abs() == Loaded(d, buf[..count0])
    modifies tpm, tpm.fifo_indata, tpm.fifo_outdata, tpm.pcr_data
    ensures count == if count0 + BURST <= |buf| - 1 then count0 + BURST else |buf| - 1
    ensures tpm.Valid() && tpm.Abs() == Loaded(d, buf[..count])
    ensures GoCount(tpm.log) == GoCount(old(tpm.log))
  {
    hide GoCount, Loaded, Step, Inv;
    count := count0;
    var burstcnt := BURST;
    while burstcnt > 0 && count < |buf| - 1
      invariant count + burstcnt == count0 + BURST && count0 <= count <= |buf| - 1 && 0 <= burstcnt
      invariant tpm.Valid() && tpm.Abs() == Loaded(d, buf[..count])
      invariant GoCount(tpm.log) == GoCount(old(tpm.log))
      decreases burstcnt
    {
      LoadByte(tpm.sha1, d, buf[..count], buf[count]);
      assert buf[..count + 1] == buf[..count] + [buf[count]];
      Write8(tpm, buf[count], FIFO_ADDR);
      count := count + 1;
      burstcnt := burstcnt - 1;
    }
  }

  // Receiving

  /** How much output is left after k reads of the data register: it is consumed only while sending. */
  function Left(d: Device, k: nat): nat
  {
    if d.state != Sending then d.outAmt else if k < d.outAmt then d.outAmt - k else 0
  }

  /** The device after k reads of the data register. */
  ghost function Popped(d: Device, k: nat): (r: Device)
    requires Inv(d)
    ensures Inv(r) && r.pcr == d.pcr
  {
    var r := d.(outAmt := Left(d, k));
    r.(sts := Status(r))
  }

  lemma PopByte(sha1: HashFn, d: Device, k: nat)
    requires Inv(d)
    ensures Step(sha1, Popped(d, k), Access(RD, FIFO_ADDR, 0)) == Popped(d, k + 1)
    ensures ReadValue(Popped(d, k), FIFO_ADDR) == Drained(d, k + 1)[k]
    ensures Drained(d, k + 1)[..k] == Drained(d, k)
  {
  }

  /** Looking at the status changes nothing, except that it is computed for the first time after reset. */
  lemma PollStatus(sha1: HashFn, d: Device)
    requires Inv(d) && (d.sts == Status(d) || (d.sts == 0 && d.outAmt == 0))
    ensures Step(sha1, d, Access(RD, STS_ADDR, 0)) == d.(sts := Status(d))
    ensures var status := ReadValue(d, STS_ADDR); HasAvail(status) && HasValid(status) <==> d.outAmt > 0
  {
    StatusBits(d);
  }

  /** The status byte is that of the state, from the first access on. */
  lemma StatusKnown(tpm: Tpm)
    requires tpm.Valid()
    ensures Inv(tpm.Abs())
    ensures tpm.Abs().sts == Status(tpm.Abs()) || (tpm.Abs().sts == 0 && tpm.Abs().outAmt == 0)
  {
  }

  method IsDataAval(tpm: Tpm) returns (avail: bool)
    requires tpm.Valid()
    modifies tpm, tpm.fifo_indata, tpm.fifo_outdata, tpm.pcr_data
    ensures tpm.Valid() && GoCount(tpm.log) == GoCount(old(tpm.log))
    ensures tpm.Abs() == old(tpm.Abs()).(sts := Status(old(tpm.Abs())))
    ensures avail <==> tpm.Abs().outAmt > 0
    ensures avail ==> tpm.Abs() == old(tpm.Abs())
  {
    hide GoCount, Step, Inv, ReadValue, Tpm.Valid, Tpm.Abs, Status;
    StatusKnown(tpm);
    PollStatus(tpm.sha1, tpm.Abs());
    var status := Read8(tpm, STS_ADDR);
    avail := HasAvail(status) && HasValid(status);
  }

  /** What the receiving methods share: off bytes of the reply d held are already in buf. */
  ghost predicate Receiving(tpm: Tpm, buf: array<byte>, off: nat, d: Device)
    reads tpm, tpm.fifo_indata, tpm.fifo_outdata, tpm.pcr_data, buf
  {
    && tpm.Valid() && Inv(d) && tpm.Abs() == Popped(d, off)
    && off <= buf.Length && buf[..off] == Drained(d, off)
    && buf != tpm.fifo_indata && buf != tpm.fifo_outdata && buf != tpm.pcr_data
  }

  method RecvByte(tpm: Tpm, buf: array<byte>, off: nat, ghost d: Device)
    requires off < buf.Length && Receiving(tpm, buf, off, d)
    modifies tpm, tpm.fifo_indata, tpm.fifo_outdata, tpm.pcr_data, buf
    ensures Receiving(tpm, buf, off + 1, d) && GoCount(tpm.log) == GoCount(old(tpm.log))
    ensures forall j :: off + 1 <= j < buf.Length ==> buf[j] == old(buf[j])
  {
    hide GoCount, Popped, Step, ReadValue, Drained, Tpm.Abs, Tpm.Valid;
    PopByte(tpm.sha1, d, off);
    var v := Read8(tpm, FIFO_ADDR);
    ghost var got := buf[..off];
    buf[off] := v;
    assert buf[..off + 1] == got + [v];
    assert Drained(d, off + 1) == Drained(d, off + 1)[..off] + [v];
  }

  /** Reads one burst: `count` bytes, but never more than BURST. */
  method RecvBurst(tpm: Tpm, buf: array<byte>, off: nat, count: nat, ghost d: Device) returns (size: nat)
    requires off + count <= buf.Length && Receiving(tpm, buf, off, d)
    modifies tpm, tpm.fifo_indata, tpm.fifo_outdata, tpm.pcr_data, buf
    ensures Receiving(tpm, buf, off + size, d) && GoCount(tpm.log) == GoCount(old(tpm.log))
    ensures size == if count < BURST then count else BURST
    ensures forall j :: off + size <= j < buf.Length ==> buf[j] == old(buf[j])
  {
    hide GoCount, Receiving;
    size := 0;
    var burstcnt := BURST;
    while burstcnt > 0 && size < count
      invariant Receiving(tpm, buf, off + size, d) && GoCount(tpm.log) == GoCount(old(tpm.log))
      invariant 0 <= size <= count && burstcnt + size == BURST && 0 <= burstcnt
      invariant forall j :: off + size <= j < buf.Length ==> buf[j] == old(buf[j])
      decreases burstcnt
    {
      RecvByte(tpm, buf, off + size, d);
      size := size + 1;
      burstcnt := burstcnt - 1;
    }
  }

  method DataAval(tpm: Tpm, buf: array<byte>, off: nat, ghost d: Device) returns (avail: bool)
    requires Receiving(tpm, buf, off, d)
    modifies tpm, tpm.fifo_indata, tpm.fifo_outdata, tpm.pcr_data
    ensures Receiving(tpm, buf, off, d) && GoCount(tpm.log) == GoCount(old(tpm.log))
    ensures d.outAmt <= 30 && (avail <==> Left(d, off) > 0)
    ensures forall j :: 0 <= j < buf.Length ==> buf[j] == old(buf[j])
  {
    hide GoCount, Drained, Tpm.Abs, Tpm.Valid;
    avail := IsDataAval(tpm);
  }

  /** Reads `count` bytes, but at most one burst, and nothing when no data is available. */
  method RecvHelper(tpm: Tpm, buf: array<byte>, off: nat, count: int, ghost d: Device) returns (size: nat)
    requires off + count <= buf.Length && Receiving(tpm, buf, off, d)
    modifies tpm, tpm.fifo_indata, tpm.fifo_outdata, tpm.pcr_data, buf
    ensures Receiving(tpm, buf, off + size, d) && GoCount(tpm.log) == GoCount(old(tpm.log))
    ensures size == if Left(d, off) == 0 || count <= 0 then 0
                    else if count < BURST || d.state != Sending then count else BURST
    ensures forall j :: off + size <= j < buf.Length ==> buf[j] == old(buf[j])
  {
    hide GoCount, Receiving;
    size := 0;
    var avail := DataAval(tpm, buf, off, d);
    while avail && size < count
      invariant Receiving(tpm, buf, off + size, d) && GoCount(tpm.log) == GoCount(old(tpm.log))
      invariant d.outAmt <= 30 && (avail <==> Left(d, off + size) > 0)
      invariant size > 0 ==> Left(d, off) > 0 && size <= count
      invariant size > 0 && d.state == Sending ==> size == if count < BURST then count else BURST
      invariant forall j :: off + size <= j < buf.Length ==> buf[j] == old(buf[j])
      decreases count - size
    {
      var got := RecvBurst(tpm, buf, off + size, count - size, d);
      size := size + got;
      avail := DataAval(tpm, buf, off + size, d);
    }
  }

  const RECV_FAILED: int := -1
  const RECV_EMPTY: int := -2

  /** A seventh byte is read although only six were asked for and no more is announced. */
  ghost predicate ReadsOneMore(d: Device, count: int)
    requires Inv(d)
  {
    count == 6 && Drained(d, 6)[5] <= 6 && Left(d, 6) > 0
  }

  /**
   * Receives a reply, in any state of the device: success exactly when what is left is a complete reply
   * that fits. The buffer is separate from the device. It holds count bytes, which is enough exactly when
   * ReadsOneMore does not apply, and otherwise one byte more.
   */
  method Recv(tpm: Tpm, buf: array<byte>, count: int) returns (ret: int, ghost written: nat)
    requires tpm.Valid() && Inv(tpm.Abs())
    requires count <= buf.Length && (ReadsOneMore(tpm.Abs(), count) ==> 7 <= buf.Length)
    requires buf != tpm.fifo_indata && buf != tpm.fifo_outdata && buf != tpm.pcr_data
    modifies tpm, tpm.fifo_indata, tpm.fifo_outdata, tpm.pcr_data, buf
    ensures tpm.Valid() && GoCount(tpm.log) == GoCount(old(tpm.log))
    ensures var d := old(tpm.Abs());
            ret == if count >= 6 && d.outAmt == 0 then RECV_EMPTY
                   else if HasReply(d) && d.outAmt <= count then 0 else RECV_FAILED
    ensures ret == 0 ==> buf[..old(tpm.Abs()).outAmt] == Drained(old(tpm.Abs()), old(tpm.Abs()).outAmt)
    ensures ret == 0 ==> tpm.Abs() == Loaded(old(tpm.Abs()), [])
    ensures tpm.Abs().pcr == old(tpm.Abs()).pcr
    ensures written <= buf.Length && buf[..written] == Drained(old(tpm.Abs()), written)
    ensures forall j :: written <= j < buf.Length ==> buf[j] == old(buf[j])
    ensures written == 0 || written <= count <==> !ReadsOneMore(old(tpm.Abs()), count)
  {
    hide GoCount, Receiving, Tpm.Valid, Tpm.Abs, HasReply, Loaded, Popped, Drained, Inv, Status, Step;
    ghost var d := tpm.Abs();
    ReplySize(d);
    assert buf[..0] == Drained(d, 0);
    written := 0;
    if count < 6 {
      return RECV_FAILED, written;
    }
    var avail := IsDataAval(tpm);
    if !avail {
      return RECV_EMPTY, written;
    }
    StartReceiving(tpm, buf, d);
    var size := RecvHelper(tpm, buf, 0, 6, d);
    written := size;
    ReceivedSize(tpm, buf, 6, d);
    if size < 6 {
      return RECV_FAILED, written;
    }
    var command_size: int := buf[5];
    if command_size > count {
      return RECV_FAILED, written;
    }
    var more := RecvHelper(tpm, buf, 6, command_size - 6 - 1, d);
    size := size + more;
    written := size;
    PcrKept(tpm, buf, size, d);
    if size < command_size - 1 {
      return RECV_FAILED, written;
    }
    avail := DataAval(tpm, buf, size, d);
    PcrKept(tpm, buf, size, d);
    if !avail {
      return RECV_FAILED, written;
    }
    more := RecvHelper(tpm, buf, size, 1, d);
    size := size + more;
    written := size;
    PcrKept(tpm, buf, size, d);
    if size != command_size {
      return RECV_FAILED, written;
    }
    avail := DataAval(tpm, buf, size, d);
    PcrKept(tpm, buf, size, d);
    if avail {
      return RECV_FAILED, written;
    }
    FinishReceiving(tpm, buf, size, d);
    Write8(tpm, STS_COMMAND_READY, STS_ADDR);
    return 0, written;
  }

  lemma PcrKept(tpm: Tpm, buf: array<byte>, off: nat, d: Device)
    requires Receiving(tpm, buf, off, d)
    ensures tpm.Valid() && tpm.Abs().pcr == d.pcr && off <= buf.Length && buf[..off] == Drained(d, off)
  {
  }

  lemma StartReceiving(tpm: Tpm, buf: array<byte>, d: Device)
    requires tpm.Valid() && Inv(d) && tpm.Abs() == d && d.sts == Status(d)
    requires buf != tpm.fifo_indata && buf != tpm.fifo_outdata && buf != tpm.pcr_data
    ensures Receiving(tpm, buf, 0, d)
  {
  }

  lemma ReceivedSize(tpm: Tpm, buf: array<byte>, off: nat, d: Device)
    requires Receiving(tpm, buf, off, d) && off == 6
    ensures buf.Length >= 6 && buf[5] == Drained(d, 6)[5] && tpm.Valid() && tpm.Abs().pcr == d.pcr
    ensures buf[..6] == Drained(d, 6)
  {
    assert buf[..6][5] == buf[5];
  }

  lemma FinishReceiving(tpm: Tpm, buf: array<byte>, off: nat, d: Device)
    requires Receiving(tpm, buf, off, d)
    ensures tpm.Valid() && Inv(tpm.Abs()) && buf[..off] == Drained(d, off)
    ensures Step(tpm.sha1, tpm.Abs(), Access(WR, STS_ADDR, STS_COMMAND_READY)) == Loaded(d, [])
    ensures Loaded(d, []).pcr == d.pcr
  {
    LoadReady(tpm.sha1, tpm.Abs());
    PoppedReady(d, off);
  }

  /** What the sixth byte tells: a complete reply is one that is left to its last byte. */
  lemma ReplySize(d: Device)
    requires Inv(d)
    ensures HasReply(d) <==> d.state == Sending && d.outAmt >= 7 && Drained(d, 6)[5] == d.outAmt
    ensures Drained(d, 6)[5] > 0 ==> d.state == Sending
    ensures d.outAmt <= 30
  {
  }

  lemma PoppedReady(d: Device, k: nat)
    requires Inv(d)
    ensures Loaded(Popped(d, k), []) == Loaded(d, [])
  {
  }

  // A whole exchange

  lemma ValidInv(tpm: Tpm)
    requires tpm.Valid()
    ensures Inv(tpm.Abs())
  {
  }

  /** The device once the request has been executed. */
  ghost function Answered(sha1: HashFn, d: Device, request: seq<byte>): (r: Device)
    requires Inv(d)
    ensures Inv(r)
  {
    Step(sha1, Loaded(d, request), Access(WR, STS_ADDR, STS_GO))
  }

  lemma AnsweredReplies(sha1: HashFn, d: Device, request: seq<byte>)
    requires Inv(d)
    ensures var r := Answered(sha1, d, request);
            && HasReply(r) && r.sts == Status(r)
            && r.outAmt == if Decode(Loaded(d, request)).Malformed? then ERROR_SIZE else REPLY_SIZE
  {
    ExecuteReplies(sha1, Loaded(d, request));
    hide Loaded, Execute, Decode;
  }

  /** A 32-bit length passed as a signed number. */
  function Signed(x: word): int
  {
    if x < 0x8000_0000 then x else x - BASE
  }

  /** Sends a request and receives its reply; a response length from 2^31 on counts as negative. */
  method SendReceive(tpm: Tpm, request: seq<byte>, response: array<byte>, response_length: word) returns (ret: int)
    requires tpm.Valid() && Inv(tpm.Abs()) && 1 <= |request| < FAILED && response_length <= response.Length
    requires response != tpm.fifo_indata && response != tpm.fifo_outdata && response != tpm.pcr_data
    modifies tpm, tpm.fifo_indata, tpm.fifo_outdata, tpm.pcr_data, response
    ensures tpm.Valid() && Inv(tpm.Abs())
    ensures var d := old(tpm.Abs()); var r := Answered(tpm.sha1, d, request);
            && (ret == 0 <==> Accepted(d.cmdSize, request) && r.outAmt <= response_length < 0x8000_0000)
            && (ret == 0 ==> response[..r.outAmt] == Drained(r, r.outAmt))
            && (ret == 0 ==> tpm.Abs().state == Accepting && tpm.Abs().outAmt == 0 && tpm.Abs().inAmt == 0)
            && tpm.Abs().pcr == (if Accepted(d.cmdSize, request) then r.pcr else d.pcr)
            && GoCount(tpm.log) == GoCount(old(tpm.log)) + if Accepted(d.cmdSize, request) then 1 else 0
  {
    hide GoCount, Tpm.Valid, HasReply, Drained, Step, Decode, Accepted;
    ghost var d := tpm.Abs();
    var sent := Send(tpm, request);
    ValidInv(tpm);
    if sent != |request| {
      return -1;
    }
    AnsweredReplies(tpm.sha1, d, request);
    ReplySize(tpm.Abs());
    var got, _ := Recv(tpm, response, Signed(response_length));
    ValidInv(tpm);
    if got != 0 {
      return -1;
    }
    return 0;
  }
}
