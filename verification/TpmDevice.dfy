/** The register-level TPM: a command FIFO in front of a bank of 24 PCRs. */
module TpmDevice {
  import opened Words

  type Digest20 = s: seq<byte> | |s| == 20 witness seq(20, _ => 0)

  /** SHA-1 is not part of this model: any function from strings to 20 bytes. */
  type HashFn = seq<byte> -> Digest20

  datatype Fifo = Idle | Accepting | Full | Sending | Working

  datatype Device = Device(
    state: Fifo, inAmt: nat, cmdSize: nat, outAmt: nat, sts: nat,
    indata: seq<byte>, outdata: seq<byte>, pcr: seq<byte>)

  const RD: word := 1
  const WR: word := 2
  const FIFO_MAX: nat := 126
  const STS_ADDR: word := 0x18
  const FIFO_ADDR: word := 0x24
  const BURST_ADDR: word := 0x1
  const STS_VALID: nat := 0x80
  const STS_DATA_AVAIL: nat := 0x10
  const STS_DATA_EXPECT: nat := 0x08
  const STS_GO: word := 0x20
  const STS_COMMAND_READY: word := 0x40
  const REPLY_SIZE: nat := 0x1e
  const ERROR_SIZE: nat := 9

  function InitDevice(): Device
  {
    Device(Idle, 0, 0, 0, 0, Zeros(126), Zeros(126), Zeros(480))
  }

  /** More input is expected. */
  predicate Expecting(d: Device)
  {
    (d.state == Accepting && d.inAmt < 4) || d.inAmt < d.cmdSize
  }

  /** The status byte that describes a state. */
  function Status(d: Device): nat
  {
    (if d.outAmt > 0 then STS_DATA_AVAIL else 0)
    + (if d.state != Working then STS_VALID else 0)
    + (if Expecting(d) then STS_DATA_EXPECT else 0)
  }

  /** Cells of the reply buffer that no command ever writes. */
  ghost predicate QuietCells(out: seq<byte>)
    requires |out| == 126
  {
    && out[21] == 0 && out[22] == 0 && out[23] == 0 && out[24] == 0
    && out[26] == 0 && out[27] == 0 && out[28] == 0 && out[30] == 0
  }

  /** What every run keeps. */
  ghost predicate Inv(d: Device)
  {
    && |d.indata| == 126 && |d.outdata| == 126 && |d.pcr| == 480
    && d.inAmt <= 126 && (d.inAmt == 126 <==> d.state == Full)
    && d.outAmt <= 30
    && d.state != Working
    && QuietCells(d.outdata)
  }

  function PcrAt(pcr: seq<byte>, i: nat): (v: seq<byte>)
    requires |pcr| == 480 && i < 24
    ensures |v| == 20
  {
    pcr[20 * i..20 * i + 20]
  }

  function SetPcr(pcr: seq<byte>, i: nat, v: seq<byte>): (r: seq<byte>)
    requires |pcr| == 480 && i < 24 && |v| == 20
    ensures |r| == 480
  {
    pcr[..20 * i] + v + pcr[20 * i + 20..]
  }

  lemma PcrSet(pcr: seq<byte>, i: nat, v: seq<byte>, j: nat)
    requires |pcr| == 480 && i < 24 && |v| == 20 && j < 24
    ensures PcrAt(SetPcr(pcr, i, v), j) == if i == j then v else PcrAt(pcr, j)
  {
    var r, at := SetPcr(pcr, i, v), 20 * i;
    assert forall k :: 0 <= k < 20 ==> r[at + k] == v[k];
    assert forall k :: 0 <= k < at ==> r[k] == pcr[k];
    assert forall k :: at + 20 <= k < 480 ==> r[k] == pcr[k];
    if i == j {
      assert r[at..at + 20] == v;
    } else {
      var to := 20 * j;
      assert to + 20 <= at || at + 20 <= to;
      assert r[to..to + 20] == pcr[to..to + 20];
    }
  }

  /** The reply buffer is sent from its high end down, so values are stored reversed. */
  function Reply(out: seq<byte>, value: seq<byte>): (r: seq<byte>)
    requires |out| == 126 && |value| == 20
    ensures |r| == 126
  {
    seq(126, j requires 0 <= j < 126 =>
      if 1 <= j <= 20 then value[20 - j] else if j == 25 then 0x1e else if j == 29 then 0xc4 else out[j])
  }

  datatype Command = Extend(index: nat, digest: seq<byte>) | Read(index: nat) | Malformed

  /** What the buffered bytes ask for: ordinals 0x14 and 0x15 with a PCR index of at most 23. */
  function Decode(d: Device): (c: Command)
    requires |d.indata| == 126
    ensures c.Extend? ==> c.index < 24 && |c.digest| == 20
    ensures c.Read? ==> c.index < 24
  {
    var s := d.indata;
    if d.state == Accepting && d.inAmt == d.cmdSize
       && s[6] == 0 && s[7] == 0 && s[8] == 0 && (s[9] == 0x14 || s[9] == 0x15) && s[13] <= 23
    then if s[9] == 0x14 then Extend(s[13], s[14..34]) else Read(s[13])
    else Malformed
  }

  function Execute(sha1: HashFn, d: Device): Device
    requires Inv(d)
  {
    match Decode(d)
    case Extend(i, digest) =>
      var v := sha1(PcrAt(d.pcr, i) + digest);
      d.(pcr := SetPcr(d.pcr, i, v), outdata := Reply(d.outdata, v), outAmt := REPLY_SIZE, state := Sending)
    case Read(i) =>
      d.(outdata := Reply(d.outdata, PcrAt(d.pcr, i)), outAmt := REPLY_SIZE, state := Sending)
    case Malformed =>
      d.(outdata := d.outdata[8 := 0xc4][4 := 9][0 := 0xFF], outAmt := ERROR_SIZE, state := Sending, inAmt := 0)
  }

  datatype Access = Access(cmd: word, addr: word, data: word)

  function ReadValue(d: Device, addr: word): nat
    requires Inv(d)
  {
    if addr == STS_ADDR then d.sts
    else if addr == BURST_ADDR then
      if d.state == Accepting then FIFO_MAX - d.inAmt else if d.state == Sending then d.outAmt else 0
    else if addr == FIFO_ADDR && d.state == Sending && d.outAmt > 0 then d.outdata[d.outAmt]
    else 0
  }

  function Advance(sha1: HashFn, d: Device, a: Access): Device
    requires Inv(d)
  {
    if a.cmd == RD && a.addr == FIFO_ADDR && d.state == Sending && d.outAmt > 0 then
      d.(outAmt := d.outAmt - 1)
    else if a.cmd == WR && a.addr == STS_ADDR && a.data == STS_COMMAND_READY then
      d.(state := Accepting, inAmt := 0, outAmt := 0, indata := Zeros(126))
    else if a.cmd == WR && a.addr == STS_ADDR && a.data == STS_GO then
      Execute(sha1, d)
    else if a.cmd == WR && a.addr == FIFO_ADDR && d.state != Full then
      d.(indata := d.indata[d.inAmt := a.data % 256],
         cmdSize := if d.inAmt == 5 then a.data else d.cmdSize,
         inAmt := d.inAmt + 1,
         state := if d.inAmt + 1 == FIFO_MAX then Full else d.state)
    else d
  }

  /** One register access. */
  function Step(sha1: HashFn, d: Device, a: Access): (r: Device)
    requires Inv(d)
    ensures Inv(r) && r.sts == Status(r)
  {
    var d' := Advance(sha1, d, a);
    d'.(sts := Status(d'))
  }

  function Run(sha1: HashFn, d: Device, log: seq<Access>): (r: Device)
    requires Inv(d)
    ensures Inv(r)
    ensures |log| > 0 ==> r.sts == Status(r)
  {
    if |log| == 0 then d else Step(sha1, Run(sha1, d, log[..|log| - 1]), log[|log| - 1])
  }

  lemma RunSnoc(sha1: HashFn, d: Device, log: seq<Access>, a: Access)
    requires Inv(d)
    ensures Run(sha1, d, log + [a]) == Step(sha1, Run(sha1, d, log), a)
  {
    assert (log + [a])[..|log|] == log;
  }

  /** Only reads and writes do anything, and a read ignores the data lines. */
  lemma AccessKinds(sha1: HashFn, d: Device, a: Access)
    requires Inv(d)
    ensures a.cmd == RD ==> Advance(sha1, d, a) == Advance(sha1, d, a.(data := 0))
    ensures a.cmd != RD && a.cmd != WR ==> Advance(sha1, d, a) == d
  {
  }

  /** The device as the source keeps it: scalars and fixed buffers updated on every access. */
  class Tpm {
    const sha1: HashFn
    var dataout: nat
    var fifo_state: Fifo
    var fifo_in_amt: nat
    var fifo_in_cmdsize: nat
    var fifo_out_amt: nat
    var fifo_sts: nat
    const fifo_indata: array<byte>
    const fifo_outdata: array<byte>
    const pcr_data: array<byte>
    ghost var log: seq<Access>  // every access since the device was initialised

    ghost function Abs(): Device
      reads this, fifo_indata, fifo_outdata, pcr_data
    {
      Device(fifo_state, fifo_in_amt, fifo_in_cmdsize, fifo_out_amt, fifo_sts,
             fifo_indata[..], fifo_outdata[..], pcr_data[..])
    }

    ghost predicate Shaped()
    {
      && fifo_indata.Length == 126 && fifo_outdata.Length == 126 && pcr_data.Length == 480
      && fifo_indata != fifo_outdata && fifo_indata != pcr_data && fifo_outdata != pcr_data
    }

    /** The state is the one the register accesses so far lead to. */
    ghost predicate Valid()
      reads this, fifo_indata, fifo_outdata, pcr_data
    {
      Shaped() && Inv(InitDevice()) && Abs() == Run(sha1, InitDevice(), log)
    }

    constructor (sha1: HashFn)
      ensures Valid() && this.sha1 == sha1 && log == []
      ensures fresh(fifo_indata) && fresh(fifo_outdata) && fresh(pcr_data)
    {
      this.sha1 := sha1;
      dataout, fifo_in_amt, fifo_in_cmdsize, fifo_out_amt, fifo_sts := 0, 0, 0, 0, 0;
      fifo_state := Idle;
      fifo_indata := new byte[126](_ => 0);
      fifo_outdata := new byte[126](_ => 0);
      pcr_data := new byte[480](_ => 0);
      log := [];
      new;
      assert fifo_indata[..] == Zeros(126) && fifo_outdata[..] == Zeros(126) && pcr_data[..] == Zeros(480);
    }

    /** Writes the tag, the size and the reversed value of a good reply. */
    method WriteReply(value: seq<byte>)
      requires Shaped() && |value| == 20
      modifies fifo_outdata, `fifo_out_amt
      ensures fifo_outdata[..] == Reply(old(fifo_outdata[..]), value)
      ensures fifo_out_amt == REPLY_SIZE
    {
      ghost var before := fifo_outdata[..];
      fifo_outdata[REPLY_SIZE - 1] := 0xc4;
      fifo_outdata[REPLY_SIZE - 5] := REPLY_SIZE;
      fifo_out_amt := REPLY_SIZE;
      var i := 0;
      while i < 20
        invariant 0 <= i <= 20
        invariant forall j :: 20 - i < j <= 20 ==> fifo_outdata[j] == value[20 - j]
        invariant forall j :: (0 <= j <= 20 - i || 20 < j < 126) && j != 25 && j != 29 ==> fifo_outdata[j] == before[j]
        invariant fifo_outdata[25] == 0x1e && fifo_outdata[29] == 0xc4
        modifies fifo_outdata
      {
        fifo_outdata[REPLY_SIZE - 10 - i] := value[i];
        i := i + 1;
      }
    }

    /** The old PCR value followed by the digest in the command. */
    method GatherExtend(pcr_index: nat) returns (data: seq<byte>)
      requires Shaped() && pcr_index < 24
      ensures data == PcrAt(pcr_data[..], pcr_index) + fifo_indata[14..34]
    {
      ghost var bank := pcr_data[..];
      var extend_data := new byte[40];
      var i := 0;
      while i < 20
        invariant 0 <= i <= 20
        invariant extend_data[..i] == bank[20 * pcr_index..20 * pcr_index + i]
        modifies extend_data
      {
        extend_data[i] := pcr_data[20 * pcr_index + i];
        i := i + 1;
      }
      var j := 14;
      while i < 40
        invariant 20 <= i <= 40 && j == i - 6
        invariant extend_data[..20] == PcrAt(bank, pcr_index)
        invariant extend_data[20..i] == fifo_indata[14..j]
        modifies extend_data
      {
        extend_data[i] := fifo_indata[j];
        i, j := i + 1, j + 1;
      }
      assert extend_data[..] == PcrAt(bank, pcr_index) + fifo_indata[14..34];
      data := extend_data[..];
    }

    method PcrExtend() returns (ret: int)
      requires Shaped() && Inv(Abs())
      modifies fifo_outdata, pcr_data, `fifo_out_amt
      ensures ret == if fifo_indata[13] > 23 then -1 else 0
      ensures ret != 0 ==> Abs() == old(Abs())
      ensures ret == 0 ==>
                var i := fifo_indata[13];
                var v := sha1(PcrAt(old(pcr_data[..]), i) + fifo_indata[14..34]);
                Abs() == old(Abs()).(pcr := SetPcr(old(pcr_data[..]), i, v),
                                     outdata := Reply(old(fifo_outdata[..]), v), outAmt := REPLY_SIZE)
    {
      var pcr_index: nat := fifo_indata[13];
      if pcr_index > 23 {
        return -1;
      }
      ghost var bank := pcr_data[..];
      var extend_data := GatherExtend(pcr_index);
      var v := sha1(extend_data);
      var base := 20 * pcr_index;
      forall k | 0 <= k < 20 {
        pcr_data[base + k] := v[k];
      }
      assert pcr_data[..] == SetPcr(bank, pcr_index, v);
      assert pcr_data[base..base + 20] == v;
      WriteReply(pcr_data[base..base + 20]);
      ret := 0;
      assert Abs().pcr == SetPcr(bank, pcr_index, v);
      assert fifo_indata[..] == old(fifo_indata[..]);
    }

    method PcrRead() returns (ret: int)
      requires Shaped() && Inv(Abs())
      modifies fifo_outdata, `fifo_out_amt
      ensures ret == if fifo_indata[13] > 23 then -1 else 0
      ensures ret != 0 ==> Abs() == old(Abs())
      ensures ret == 0 ==>
                Abs() == old(Abs()).(outdata := Reply(old(fifo_outdata[..]), PcrAt(pcr_data[..], fifo_indata[13])),
                                     outAmt := REPLY_SIZE)
    {
      var pcr_index: nat := fifo_indata[13];
      if pcr_index > 23 {
        return -1;
      }
      WriteReply(pcr_data[20 * pcr_index..20 * pcr_index + 20]);
      ret := 0;
    }

    method RunCmd()
      requires Shaped() && Inv(Abs())
      modifies this, fifo_outdata, pcr_data
      ensures Abs() == Execute(sha1, old(Abs()))
      ensures log == old(log) && dataout == old(dataout)
    {
      var cmd_worked := false;
      if fifo_state == Accepting {
        if fifo_in_amt == fifo_in_cmdsize {
          if fifo_indata[6] == 0 && fifo_indata[7] == 0 && fifo_indata[8] == 0 && fifo_indata[9] == 0x14 {
            var ret := PcrExtend();
            if ret == 0 { cmd_worked := true; }
          }
          if fifo_indata[6] == 0 && fifo_indata[7] == 0 && fifo_indata[8] == 0 && fifo_indata[9] == 0x15 {
            var ret := PcrRead();
            if ret == 0 { cmd_worked := true; }
          }
        }
      }
      if !cmd_worked {
        fifo_state := Sending;
        fifo_in_amt := 0;
        fifo_outdata[ERROR_SIZE - 1] := 0xc4;
        fifo_outdata[ERROR_SIZE - 5] := ERROR_SIZE;
        fifo_outdata[0] := 0xFF;
        fifo_out_amt := ERROR_SIZE;
      } else {
        fifo_state := Sending;
      }
    }

    /** One access to the registers. */
    method Update(cmd: word, cmdaddr: word, cmddata: word) returns (out: nat)
      requires Valid()
      modifies this, fifo_indata, fifo_outdata, pcr_data
      ensures Valid() && log == old(log) + [Access(cmd, cmdaddr, cmddata)]
      ensures Abs() == Step(sha1, old(Abs()), Access(cmd, cmdaddr, cmddata))
      ensures out == if cmd == RD then ReadValue(old(Abs()), cmdaddr) else 0
    {
      hide Advance, ReadValue, Run, Inv, InitDevice;
      ghost var before := Abs();
      ghost var a := Access(cmd, cmdaddr, cmddata);
      AccessKinds(sha1, before, a);
      RunSnoc(sha1, InitDevice(), log, a);
      dataout := 0;
      if cmd == RD {
        ReadRegister(cmdaddr);
      }
      if cmd == WR {
        WriteRegister(cmdaddr, cmddata);
      }
      var data_aval := if fifo_out_amt > 0 then STS_DATA_AVAIL else 0;
      var sts_valid := if fifo_state != Working then STS_VALID else 0;
      var data_expected := 0;
      if (fifo_state == Accepting && fifo_in_amt < 4) || fifo_in_amt < fifo_in_cmdsize {
        data_expected := STS_DATA_EXPECT;
      }
      fifo_sts := data_aval + sts_valid + data_expected;
      assert Abs() == Step(sha1, before, a);
      log := log + [a];
      return dataout;
    }

    method ReadRegister(cmdaddr: word)
      requires Shaped() && Inv(Abs()) && dataout == 0
      modifies `dataout, `fifo_out_amt
      ensures Abs() == Advance(sha1, old(Abs()), Access(RD, cmdaddr, 0))
      ensures dataout == ReadValue(old(Abs()), cmdaddr)
    {
      if cmdaddr == STS_ADDR {
        dataout := fifo_sts;
      }
      if cmdaddr == BURST_ADDR {
        if fifo_state == Accepting {
          dataout := FIFO_MAX - fifo_in_amt;
        }
        if fifo_state == Sending {
          dataout := fifo_out_amt;
        }
      } else if cmdaddr == FIFO_ADDR {
        if fifo_state == Sending {
          if fifo_out_amt > 0 {
            dataout := fifo_outdata[fifo_out_amt];
            fifo_out_amt := fifo_out_amt - 1;
          }
        }
      }
    }

    method WriteRegister(cmdaddr: word, cmddata: word)
      requires Shaped() && Inv(Abs())
      modifies this, fifo_indata, fifo_outdata, pcr_data
      ensures Abs() == Advance(sha1, old(Abs()), Access(WR, cmdaddr, cmddata))
      ensures log == old(log) && dataout == old(dataout)
    {
      if cmdaddr == STS_ADDR {
        if cmddata == STS_COMMAND_READY {
          var i := 0;
          while i < FIFO_MAX
            invariant 0 <= i <= FIFO_MAX
            invariant forall j :: 0 <= j < i ==> fifo_indata[j] == 0
            modifies fifo_indata
          {
            fifo_indata[i] := 0;
            i := i + 1;
          }
          assert fifo_indata[..] == Zeros(126);
          fifo_state := Accepting;
          fifo_in_amt := 0;
          fifo_out_amt := 0;
        } else if cmddata == STS_GO {
          RunCmd();
        }
      } else if cmdaddr == FIFO_ADDR {
        if fifo_state != Full {
          if fifo_in_amt == 5 {
            fifo_in_cmdsize := cmddata;
          }
          fifo_indata[fifo_in_amt] := cmddata % 256;
          fifo_in_amt := fifo_in_amt + 1;
          if fifo_in_amt == FIFO_MAX {
            fifo_state := Full;
          }
        }
      }
    }
  }
}
