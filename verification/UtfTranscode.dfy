/** The partition-label transcoders: state machines over single code units with a bounded output. */
module UtfTranscode {
  import opened Words
  import opened Utf

  /** Nothing at the front of t can be transcoded into the room left. */
  ghost predicate Stuck8(t: seq<byte>, room: nat)
  {
    forall v: CodePoint :: !Next8(t, room, v)
  }

  lemma StuckFails(t: seq<byte>, room: nat)
    requires Stuck8(t, room) && |t| > 0 && room > 0
    ensures From8(t, room) == Failed
  {
  }

  lemma BadTrail(t: seq<byte>, d: nat, room: nat)
    requires 1 <= d < |t| && d < Units(t[0]) && !IsTrail(t[d])
    ensures Stuck8(t, room)
  {
    forall v: CodePoint ensures !Next8(t, room, v) {
      if Next8(t, room, v) {
        EncPrefix(v, t);
      }
    }
  }

  lemma BadLead(t: seq<byte>, room: nat)
    requires |t| > 0 && (Units(t[0]) == 0 || |t| < Units(t[0]))
    ensures Stuck8(t, room)
  {
    forall v: CodePoint ensures !Next8(t, room, v) {
      if Next8(t, room, v) { EncPrefix(v, t); }
    }
  }

  /** The code point in a complete sequence can be output: shortest form, scalar, and it fits. */
  predicate Outputs(n: nat, b: nat, room: nat)
  {
    Shortest(n) <= b && (b <= 0xD7FF || 0xE000 <= b <= 0xFFFF || (0x1_0000 <= b <= 0x10FFFF && room >= 2))
  }

  lemma CompleteSequence(t: seq<byte>, room: nat)
    requires |t| > 0 && room > 0 && 1 <= Units(t[0]) <= |t| && Shaped(t[..Units(t[0])])
    ensures var n := Units(t[0]); var b := Bits(t[..n]);
            if Outputs(n, b, room) then Next8(t, room, b) && |Enc8(b)| == n else Stuck8(t, room)
  {
    var n := Units(t[0]);
    var q := t[..n];
    var b := Bits(q);
    hide Bits, Enc8, Units;
    if Outputs(n, b, room) {
      EncOfBits(q);
    } else {
      forall v: CodePoint ensures !Next8(t, room, v) {
        if Next8(t, room, v) {
          EncPrefix(v, t);
          BitsOfEnc(v);
          EncLongEnough(v);
        }
      }
    }
  }

  /** Where the UTF-8 machine stands after i bytes: vs is out, s[k..i] is a sequence not yet complete. */
  ghost predicate Scanning(s: seq<byte>, cap: nat, i: nat, k: nat, vs: seq<CodePoint>, room: nat,
                           code_point: nat, expected: nat, decoded: nat)
  {
    && k <= i <= |s|
    && From8(s, cap) == Prepend(vs, From8(s[k..], room))
    && |Enc16Seq(vs)| + room == cap
    && if expected == decoded then k == i
       else
         && room > 0 && 1 <= decoded < expected && i - k == decoded
         && Shaped(s[k..i]) && expected == Units(s[k]) && code_point == Bits(s[k..i])
  }

  /** What taking a byte does to the machine's three variables. */
  ghost predicate Taken(u: byte, cp0: nat, expected0: nat, decoded0: nat, bad: bool, cp: nat, expected: nat, decoded: nat)
  {
    if expected0 != decoded0 then
      && bad == !IsTrail(u)
      && expected == expected0
      && (!bad ==> decoded == decoded0 + 1 && cp == 64 * cp0 + TrailBits(u))
    else
      && bad == (Units(u) == 0)
      && (!bad ==> decoded == 1 && expected == Units(u) && cp == LeadBits(u))
  }

  /** One byte into the machine: a lead byte starts a sequence, a trail byte extends one. */
  method TakeUnit(code_unit: byte, code_point0: nat, expected0: nat, decoded0: nat)
    returns (bad: bool, code_point: nat, expected: nat, decoded: nat)
    ensures Taken(code_unit, code_point0, expected0, decoded0, bad, code_point, expected, decoded)
  {
    bad, code_point, expected, decoded := false, code_point0, expected0, decoded0;
    if expected != decoded {
      if code_unit / 64 == 2 {
        code_point := 64 * code_point + code_unit % 64;
        decoded := decoded + 1;
      } else {
        bad := true;
      }
    } else {
      decoded := 1;
      if code_unit <= 0x7F {
        code_point := code_unit;
        expected := 1;
      } else if code_unit <= 0xBF {
        bad := true;
      } else if code_unit >= 0xC2 && code_unit <= 0xDF {
        code_point := code_unit % 32;
        expected := 2;
      } else if code_unit >= 0xE0 && code_unit <= 0xEF {
        code_point := code_unit % 16;
        expected := 3;
      } else if code_unit >= 0xF0 && code_unit <= 0xF4 {
        code_point := code_unit % 8;
        expected := 4;
      } else {
        bad := true;
      }
    }
  }

  /** Taking byte s[i]: either it fits the sequence begun at k, or nothing at k can be transcoded. */
  lemma TakeStep(s: seq<byte>, cap: nat, i: nat, k: nat, vs: seq<CodePoint>, room: nat,
                 cp: nat, expected: nat, decoded: nat)
    requires i < |s| && room > 0
    requires Scanning(s, cap, i, k, vs, room, cp, expected, decoded)
    ensures expected != decoded ==>
              && s[i..][0] == s[i]
              && (IsTrail(s[i]) ==> Shaped(s[k..i + 1]) && Bits(s[k..i + 1]) == 64 * cp + TrailBits(s[i]))
              && (!IsTrail(s[i]) ==> From8(s, cap) == Failed)
    ensures expected == decoded ==>
              && (Units(s[i]) != 0 ==> Shaped(s[k..i + 1]) && Bits(s[k..i + 1]) == LeadBits(s[i]))
              && (Units(s[i]) == 0 ==> From8(s, cap) == Failed)
  {
    hide LeadBits, TrailBits, Units, Bits, IsTrail, Shaped, From8, Enc16Seq;
    var t := s[k..];
    if expected != decoded {
      TrailStep(s, i, k, decoded, room);
    } else {
      LeadStep(s, i, room);
    }
  }

  lemma TrailStep(s: seq<byte>, i: nat, k: nat, decoded: nat, room: nat)
    requires k < i < |s| && room > 0 && i - k == decoded < Units(s[k]) && Shaped(s[k..i])
    ensures IsTrail(s[i]) ==> Shaped(s[k..i + 1]) && Bits(s[k..i + 1]) == 64 * Bits(s[k..i]) + TrailBits(s[i])
    ensures !IsTrail(s[i]) ==> From8(s[k..], room) == Failed
  {
    hide LeadBits, TrailBits, Units, Bits, IsTrail, From8;
    var t := s[k..];
    assert t[0] == s[k] && t[decoded] == s[i];
    if IsTrail(s[i]) {
      assert s[k..i + 1] == s[k..i] + [s[i]];
      BitsSnoc(s[k..i], s[i]);
    } else {
      BadTrail(t, decoded, room);
      StuckFails(t, room);
    }
  }

  lemma LeadStep(s: seq<byte>, i: nat, room: nat)
    requires i < |s| && room > 0
    ensures Units(s[i]) != 0 ==> Shaped(s[i..i + 1]) && Bits(s[i..i + 1]) == LeadBits(s[i])
    ensures Units(s[i]) == 0 ==> From8(s[i..], room) == Failed
  {
    hide LeadBits, Units, From8;
    assert s[i..i + 1] == [s[i]];
    if Units(s[i]) == 0 {
      BadLead(s[i..], room);
      StuckFails(s[i..], room);
    }
  }

  /** A complete sequence s[k..i+1]: its code point is output next, or nothing at k can be transcoded. */
  lemma CompleteStep(s: seq<byte>, cap: nat, i: nat, k: nat, vs: seq<CodePoint>, room: nat, n: nat)
    requires k <= i < |s| && room > 0 && n == i + 1 - k
    requires From8(s, cap) == Prepend(vs, From8(s[k..], room)) && |Enc16Seq(vs)| + room == cap
    requires Shaped(s[k..i + 1]) && n == Units(s[k])
    ensures var b := Bits(s[k..i + 1]);
            if Outputs(n, b, room)
            then && |Enc16(b)| <= room
                 && Scanning(s, cap, i + 1, i + 1, vs + [b], room - |Enc16(b)|, b, n, n)
                 && Enc16Seq(vs + [b]) == Enc16Seq(vs) + Enc16(b)
            else From8(s, cap) == Failed
  {
    hide Bits, Enc8, Enc16, Enc16Seq, From8, Next8, Units, Stuck8, Outputs, Shaped, IsTrail;
    var t := s[k..];
    assert t[0] == s[k] && t[..n] == s[k..i + 1];
    CompleteSequence(t, room);
    var b := Bits(s[k..i + 1]);
    OutputFits(n, b, room);
    if Outputs(n, b, room) {
      From8Step(t, room, b);
      assert t[n..] == s[i + 1..];
      Enc16Snoc(vs, b);
      PrependTwice(vs, b, From8(s[i + 1..], room - |Enc16(b)|));
    } else {
      StuckFails(t, room);
    }
  }

  lemma OutputFits(n: nat, b: nat, room: nat)
    requires room > 0
    ensures Outputs(n, b, room) ==> b <= 0x10FFFF && |Enc16(b)| <= room
  {
  }

  lemma PrependTwice(vs: seq<CodePoint>, v: CodePoint, o: Outcome)
    ensures Prepend(vs, Prepend([v], o)) == Prepend(vs + [v], o)
  {
    if o.Done? {
      assert vs + ([v] + o.points) == (vs + [v]) + o.points;
    }
  }

  /** One turn of the loop, whichever way it goes. */
  lemma Turn(s: seq<byte>, cap: nat, i: nat, k: nat, vs: seq<CodePoint>, room: nat,
             cp0: nat, expected0: nat, decoded0: nat, bad: bool, cp: nat, expected: nat, decoded: nat)
    requires i < |s| && room > 0
    requires Scanning(s, cap, i, k, vs, room, cp0, expected0, decoded0)
    requires Taken(s[i], cp0, expected0, decoded0, bad, cp, expected, decoded)
    ensures bad ==> From8(s, cap) == Failed
    ensures !bad && expected != decoded ==> Scanning(s, cap, i + 1, k, vs, room, cp, expected, decoded)
    ensures !bad && expected == decoded && !Outputs(expected, cp, room) ==> From8(s, cap) == Failed
    ensures !bad && expected == decoded && Outputs(expected, cp, room) ==>
              && |Enc16(cp)| <= room
              && Scanning(s, cap, i + 1, i + 1, vs + [cp], room - |Enc16(cp)|, cp, expected, decoded)
              && Enc16Seq(vs + [cp]) == Enc16Seq(vs) + Enc16(cp)
  {
    hide From8, Bits, LeadBits, TrailBits, Units, IsTrail, Shaped, Enc16, Enc16Seq, Outputs;
    TakeStep(s, cap, i, k, vs, room, cp0, expected0, decoded0);
    if !bad && expected == decoded {
      CompleteStep(s, cap, i, k, vs, room, expected);
    }
  }

  /** Writes the UTF-16 of a complete sequence at index at, unless it is not one to be output. */
  method PutUnits(utf16: array<unit>, at: nat, room: nat, expected: nat, code_point: nat)
    returns (ok: bool, at': nat, room': nat)
    requires room > 0 && at + room < utf16.Length
    modifies utf16
    ensures ok == Outputs(expected, code_point, room)
    ensures !ok ==> at' == at && room' == room && utf16[..] == old(utf16[..])
    ensures ok ==>
              && code_point <= 0x10FFFF && at' == at + |Enc16(code_point)| && room' == room - |Enc16(code_point)|
              && utf16[..at'] == old(utf16[..at]) + Enc16(code_point)
              && utf16[at'..] == old(utf16[at'..])
  {
    ok, at', room' := true, at, room;
    if expected == 2 {
      if code_point <= 0x7F { ok := false; }
    } else if expected == 3 {
      if code_point <= 0x7FF { ok := false; }
    } else if expected == 4 {
      if code_point <= 0xFFFF { ok := false; }
    }
    if !ok {
      return;
    }
    if code_point <= 0xD7FF || (code_point >= 0xE000 && code_point <= 0xFFFF) {
      utf16[at] := code_point;
      at', room' := at + 1, room - 1;
    } else if code_point >= 0x1_0000 && code_point <= 0x10FFFF && room >= 2 {
      utf16[at] := 0xD800 + (code_point / 1024 - 0x40);
      utf16[at + 1] := 0xDC00 + code_point % 1024;
      at', room' := at + 2, room - 2;
    } else {
      ok := false;
    }
  }

  /**
   * Transcodes the null-terminated string s into at most maxoutput units, terminator included. Where
   * its comment promises a failure when the output is too short, the code succeeds with a truncated
   * result if the room runs out exactly between two characters; From8 says so too.
   */
  method Utf8ToUtf16(s: seq<byte>, utf16: array<unit>, maxoutput: nat) returns (ok: bool)
    requires forall i :: 0 <= i < |s| ==> s[i] != 0
    requires maxoutput <= utf16.Length
    modifies utf16
    ensures utf16[maxoutput..] == old(utf16[maxoutput..])
    ensures maxoutput == 0 ==> !ok
    ensures maxoutput > 0 ==> (ok <==> From8(s, maxoutput - 1).Done?)
    ensures ok ==> Holds16(utf16[..], Enc16Seq(From8(s, maxoutput - 1).points), maxoutput)
  {
    if maxoutput == 0 {
      return false;
    }
    var s16idx;
    ok, s16idx := Scan8(s, utf16, maxoutput - 1);
    ghost var units := utf16[..s16idx];
    utf16[s16idx] := 0;
    assert utf16[..s16idx + 1] == units + [0];
  }

  /** The loop of Utf8ToUtf16, with room for cap units. */
  method Scan8(s: seq<byte>, utf16: array<unit>, cap: nat) returns (ok: bool, s16idx: nat)
    requires cap < utf16.Length
    modifies utf16
    ensures s16idx <= cap && utf16[cap..] == old(utf16[cap..])
    ensures ok <==> From8(s, cap).Done?
    ensures ok ==> utf16[..s16idx] == Enc16Seq(From8(s, cap).points)
  {
    hide From8, Enc16, Enc16Seq, Outputs, Taken, Scanning;
    ok, s16idx := true, 0;
    var room: nat := cap;
    var code_point: nat, expected_units: nat, decoded_units: nat := 0, 1, 1;
    var s8idx: nat := 0;
    ghost var k, vs: seq<CodePoint> := 0, [];
    StartScanning(s, cap);
    while s8idx < |s| && room > 0
      invariant Scanning(s, cap, s8idx, k, vs, room, code_point, expected_units, decoded_units)
      invariant s8idx <= |s| && s16idx + room == cap && utf16[..s16idx] == Enc16Seq(vs)
      invariant utf16[cap..] == old(utf16[cap..])
      decreases |s| - s8idx
    {
      ghost var cp0, expected0, decoded0 := code_point, expected_units, decoded_units;
      var bad;
      bad, code_point, expected_units, decoded_units := TakeUnit(s[s8idx], code_point, expected_units, decoded_units);
      Turn(s, cap, s8idx, k, vs, room, cp0, expected0, decoded0, bad, code_point, expected_units, decoded_units);
      if bad {
        return false, s16idx;
      }
      if expected_units == decoded_units {
        var fits;
        fits, s16idx, room := PutUnits(utf16, s16idx, room, expected_units, code_point);
        if !fits {
          return false, s16idx;
        }
        vs, k := vs + [code_point], s8idx + 1;
      }
      s8idx := s8idx + 1;
    }
    FinishScanning(s, cap, s8idx, k, vs, room, code_point, expected_units, decoded_units);
    ok := expected_units == decoded_units;
  }

  /** The array starts with the given units and a terminator, all within its first n entries. */
  ghost predicate Holds16(a: seq<unit>, units: seq<unit>, n: nat)
  {
    |units| < n <= |a| && a[..|units| + 1] == units + [0]
  }

  lemma FinishScanning(s: seq<byte>, cap: nat, i: nat, k: nat, vs: seq<CodePoint>, room: nat,
                       cp: nat, expected: nat, decoded: nat)
    requires Scanning(s, cap, i, k, vs, room, cp, expected, decoded)
    requires i == |s| || room == 0
    ensures From8(s, cap) == if expected == decoded then Done(vs) else Failed
  {
    var t := s[k..];
    if expected == decoded {
      assert vs + [] == vs;
    } else {
      assert t[0] == s[k] && s[k..i] == t;
      BadLead(t, room);
      StuckFails(t, room);
    }
  }

  lemma StartScanning(s: seq<byte>, cap: nat)
    ensures Scanning(s, cap, 0, 0, [], cap, 0, 1, 1)
  {
    assert s[0..] == s;
    var o := From8(s, cap);
    assert o.Done? ==> [] + o.points == o.points;
  }

  // UTF-16 to UTF-8

  /** The units before the first null unit, or all of them. */
  function Text(u: seq<unit>): (r: seq<unit>)
    ensures |r| <= |u| && r == u[..|r|] && (|r| < |u| ==> u[|r|] == 0)
    ensures forall i :: 0 <= i < |r| ==> r[i] != 0
  {
    if |u| == 0 || u[0] == 0 then [] else [u[0]] + Text(u[1..])
  }

  ghost predicate Scanning16(u: seq<unit>, cap: nat, i: nat, k: nat, vs: seq<CodePoint>, room: nat, cp: nat, ready: bool)
  {
    && k <= i <= |u|
    && From16(u, cap) == Prepend(vs, From16(u[k..], room))
    && |Enc8Seq(vs)| + room == cap
    && if ready then k == i else room > 0 && i == k + 1 && IsHigh(u[k]) && cp == u[k] % 1024 + 64
  }

  /** The code point that is ready after unit u[i], when one is. */
  predicate Ready(cu: unit, cp0: nat, ready0: bool, cp: nat)
  {
    if ready0 then !IsHigh(cu) && cp == cu else IsLow(cu) && cp == 1024 * cp0 + cu % 1024
  }

  lemma ReadyPoint(u: seq<unit>, cap: nat, i: nat, k: nat, vs: seq<CodePoint>, room: nat, cp0: nat, ready0: bool, cp: nat)
    requires i < |u| && room > 0
    requires Scanning16(u, cap, i, k, vs, room, cp0, ready0)
    requires Ready(u[i], cp0, ready0, cp)
    ensures cp <= 0x10FFFF && !IsHigh(cp) && Enc16(cp) <= u[k..] && |Enc16(cp)| == i + 1 - k
    ensures !(|u[k..]| == 1 && IsHigh(u[k..][0]))
  {
    var t := u[k..];
    assert t[0] == u[k];
    if !ready0 {
      assert t[1] == u[i];
      assert cp / 1024 == cp0 && cp % 1024 == u[i] % 1024;
    }
  }

  lemma Turn16(u: seq<unit>, cap: nat, i: nat, k: nat, vs: seq<CodePoint>, room: nat, cp0: nat, ready0: bool, cp: nat)
    requires i < |u| && room > 0
    requires Scanning16(u, cap, i, k, vs, room, cp0, ready0)
    requires Ready(u[i], cp0, ready0, cp)
    ensures cp <= 0x10FFFF
    ensures |Enc8(cp)| <= room ==>
              && Scanning16(u, cap, i + 1, i + 1, vs + [cp], room - |Enc8(cp)|, cp, true)
              && Enc8Seq(vs + [cp]) == Enc8Seq(vs) + Enc8(cp)
    ensures |Enc8(cp)| > room ==> From16(u, cap) == Failed
  {
    ReadyPoint(u, cap, i, k, vs, room, cp0, ready0, cp);
    var t := u[k..];
    if |Enc8(cp)| <= room {
      hide Enc8, Enc16, From16, Enc8Seq;
      From16Step(t, room, cp);
      assert t[|Enc16(cp)|..] == u[i + 1..];
      Enc8Snoc(vs, cp);
      PrependTwice(vs, cp, From16(u[i + 1..], room - |Enc8(cp)|));
    } else {
      hide Enc8, Enc16, Enc8Seq;
      forall v: CodePoint ensures !Next16(t, room, v) {
        if Next16(t, room, v) { Enc16Unique(v, cp, t); }
      }
    }
  }

  lemma Unpaired(u: seq<unit>, cap: nat, i: nat, k: nat, vs: seq<CodePoint>, room: nat, cp0: nat)
    requires i < |u| && room > 0
    requires Scanning16(u, cap, i, k, vs, room, cp0, false) && !IsLow(u[i])
    ensures From16(u, cap) == Failed
  {
    var t := u[k..];
    assert t[0] == u[k] && t[1] == u[i];
    forall v: CodePoint ensures !Next16(t, room, v) {
    }
  }

  lemma Finish16(u: seq<unit>, cap: nat, i: nat, k: nat, vs: seq<CodePoint>, room: nat, cp: nat, ready: bool)
    requires Scanning16(u, cap, i, k, vs, room, cp, ready)
    requires i == |u| || room == 0
    ensures From16(u, cap) == Done(vs)
  {
    assert vs + [] == vs;
    if !ready { assert u[k..][0] == u[k]; }
  }

  lemma Start16(u: seq<unit>, cap: nat)
    ensures Scanning16(u, cap, 0, 0, [], cap, 0, true)
  {
    assert u[0..] == u;
    var o := From16(u, cap);
    assert o.Done? ==> [] + o.points == o.points;
  }

  /** Writes the UTF-8 of a code point at index at, if it fits. */
  method PutBytes(utf8: array<byte>, at: nat, room: nat, code_point: CodePoint) returns (ok: bool, at': nat, room': nat)
    requires room > 0 && at + room < utf8.Length
    modifies utf8
    ensures ok == (|Enc8(code_point)| <= room)
    ensures !ok ==> at' == at && room' == room && utf8[..] == old(utf8[..])
    ensures ok ==>
              && at' == at + |Enc8(code_point)| && room' == room - |Enc8(code_point)|
              && utf8[..at'] == old(utf8[..at]) + Enc8(code_point)
              && utf8[at'..] == old(utf8[at'..])
  {
    ok, at', room' := true, at, room;
    if code_point <= 0x7F && room >= 1 {
      utf8[at] := code_point;
      at', room' := at + 1, room - 1;
    } else if code_point <= 0x7FF && room >= 2 {
      utf8[at] := 0xC0 + code_point / 64;
      utf8[at + 1] := 0x80 + code_point % 64;
      at', room' := at + 2, room - 2;
    } else if code_point <= 0xFFFF && room >= 3 {
      utf8[at] := 0xE0 + code_point / 4096;
      utf8[at + 1] := 0x80 + code_point / 64 % 64;
      utf8[at + 2] := 0x80 + code_point % 64;
      at', room' := at + 3, room - 3;
    } else if code_point <= 0x10FFFF && room >= 4 {
      utf8[at] := 0xF0 + code_point / 0x4_0000;
      utf8[at + 1] := 0x80 + code_point / 4096 % 64;
      utf8[at + 2] := 0x80 + code_point / 64 % 64;
      utf8[at + 3] := 0x80 + code_point % 64;
      at', room' := at + 4, room - 4;
    } else {
      ok := false;
    }
  }

  /** The loop of Utf16ToUtf8, with room for cap bytes. */
  method Scan16(utf16: seq<unit>, utf8: array<byte>, cap: nat) returns (ok: bool, s8idx: nat)
    requires cap < utf8.Length
    modifies utf8
    ensures s8idx <= cap && utf8[cap..] == old(utf8[cap..])
    ensures ok <==> From16(Text(utf16), cap).Done?
    ensures ok ==> utf8[..s8idx] == Enc8Seq(From16(Text(utf16), cap).points)
  {
    hide From16, Enc8, Enc8Seq, Scanning16, Text;
    ghost var u := Text(utf16);
    ok, s8idx := true, 0;
    var room: nat := cap;
    var code_point: nat, code_point_ready := 0, true;
    var s16idx: nat := 0;
    ghost var k, vs: seq<CodePoint> := 0, [];
    Start16(u, cap);
    while s16idx < |utf16| && utf16[s16idx] != 0 && room > 0
      invariant Scanning16(u, cap, s16idx, k, vs, room, code_point, code_point_ready)
      invariant s16idx <= |u| && s8idx + room == cap && utf8[..s8idx] == Enc8Seq(vs)
      invariant utf8[cap..] == old(utf8[cap..])
      decreases |utf16| - s16idx
    {
      var codeunit := utf16[s16idx];
      assert s16idx < |u| && u[s16idx] == codeunit;
      if code_point_ready && codeunit >= 0xD800 && codeunit <= 0xDBFF {
        HighStep(u, cap, s16idx, k, vs, room, code_point);
        code_point_ready := false;
        code_point := codeunit % 1024 + 0x40;
      } else if !code_point_ready && !(codeunit >= 0xDC00 && codeunit <= 0xDFFF) {
        Unpaired(u, cap, s16idx, k, vs, room, code_point);
        return false, s8idx;
      } else {
        ghost var cp0, ready0 := code_point, code_point_ready;
        code_point := if code_point_ready then codeunit else 1024 * code_point + codeunit % 1024;
        code_point_ready := true;
        Turn16(u, cap, s16idx, k, vs, room, cp0, ready0, code_point);
        var fits;
        fits, s8idx, room := PutBytes(utf8, s8idx, room, code_point);
        if !fits {
          return false, s8idx;
        }
        vs, k := vs + [code_point], s16idx + 1;
      }
      s16idx := s16idx + 1;
    }
    Finish16(u, cap, s16idx, k, vs, room, code_point, code_point_ready);
  }

  lemma HighStep(u: seq<unit>, cap: nat, i: nat, k: nat, vs: seq<CodePoint>, room: nat, cp0: nat)
    requires i < |u| && room > 0 && IsHigh(u[i])
    requires Scanning16(u, cap, i, k, vs, room, cp0, true)
    ensures Scanning16(u, cap, i + 1, k, vs, room, u[i] % 1024 + 64, false)
  {
  }

  /**
   * Transcodes at most all of utf16, stopping at a null unit, into at most maxoutput bytes,
   * terminator included. A low surrogate on its own is encoded as if it were a character, and a high
   * surrogate at the very end is dropped.
   */
  method Utf16ToUtf8(utf16: seq<unit>, utf8: array<byte>, maxoutput: nat) returns (ok: bool)
    requires maxoutput <= utf8.Length
    modifies utf8
    ensures utf8[maxoutput..] == old(utf8[maxoutput..])
    ensures |utf16| == 0 || maxoutput == 0 ==> !ok
    ensures |utf16| > 0 && maxoutput > 0 ==> (ok <==> From16(Text(utf16), maxoutput - 1).Done?)
    ensures ok ==> Holds8(utf8[..], Enc8Seq(From16(Text(utf16), maxoutput - 1).points), maxoutput)
  {
    if |utf16| == 0 || maxoutput == 0 {
      return false;
    }
    var s8idx;
    ok, s8idx := Scan16(utf16, utf8, maxoutput - 1);
    ghost var bytes := utf8[..s8idx];
    utf8[s8idx] := 0;
    assert utf8[..s8idx + 1] == bytes + [0];
  }

  ghost predicate Holds8(a: seq<byte>, bytes: seq<byte>, n: nat)
  {
    |bytes| < n <= |a| && a[..|bytes| + 1] == bytes + [0]
  }
}
