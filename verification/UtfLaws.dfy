/** What the transcoders guarantee: exactly which strings convert, and that they undo each other. */
module UtfLaws {
  import opened Words
  import opened Utf
  import opened UtfTranscode

  /** s is well-formed UTF-8: the encoding of some sequence of scalar values. */
  ghost predicate WellFormed8(s: seq<byte>)
  {
    exists vs: seq<CodePoint> :: Scalars(vs) && Enc8Seq(vs) == s
  }

  /** vs is what a conversion of s with room for cap units yields: all of s, or as much as fills the room. */
  ghost predicate Converts8(s: seq<byte>, cap: nat, vs: seq<CodePoint>)
  {
    && Scalars(vs) && Enc8Seq(vs) <= s && |Enc16Seq(vs)| <= cap
    && (Enc8Seq(vs) == s || |Enc16Seq(vs)| == cap)
  }

  lemma Converts8Cons(s: seq<byte>, cap: nat, v: CodePoint, ws: seq<CodePoint>)
    requires Next8(s, cap, v)
    ensures Converts8(s, cap, [v] + ws) <==> Converts8(s[|Enc8(v)|..], cap - |Enc16(v)|, ws)
  {
    hide Enc8, Enc16;
    var vs, n, rest := [v] + ws, |Enc8(v)|, s[|Enc8(v)|..];
    assert vs[1..] == ws;
    assert s == Enc8(v) + rest;
    assert Enc8Seq(vs) == Enc8(v) + Enc8Seq(ws) && Enc16Seq(vs) == Enc16(v) + Enc16Seq(ws);
    hide Enc8Seq, Enc16Seq;
    if Enc8Seq(vs) <= s { assert Enc8Seq(vs)[n..] == Enc8Seq(ws); }
    if Scalars(vs) { assert forall i :: 0 <= i < |ws| ==> ws[i] == vs[i + 1]; }
  }

  lemma {:induction false} From8Sound(s: seq<byte>, cap: nat)
    requires From8(s, cap).Done?
    ensures Converts8(s, cap, From8(s, cap).points)
    decreases |s|
  {
    hide Enc8, Enc16, Pick8;
    if |s| > 0 && cap > 0 {
      var v := Pick8(s, cap);
      var rest, room := s[|Enc8(v)|..], cap - |Enc16(v)|;
      From8Sound(rest, room);
      Converts8Cons(s, cap, v, From8(rest, room).points);
      hide Converts8;
    }
  }

  lemma {:induction false} From8Complete(s: seq<byte>, cap: nat, vs: seq<CodePoint>)
    requires Converts8(s, cap, vs)
    ensures From8(s, cap) == Done(vs)
    decreases |vs|
  {
    hide Enc8, Enc16;
    if |vs| > 0 {
      var v, ws := vs[0], vs[1..];
      assert Enc8(v) <= s by { assert Enc8(v) <= Enc8Seq(vs); }
      assert vs == [v] + ws;
      Converts8Cons(s, cap, v, ws);
      From8Complete(s[|Enc8(v)|..], cap - |Enc16(v)|, ws);
      From8Step(s, cap, v);
    }
  }

  /** Exactly when, and to what, UTF-8 converts, for every string and every room. */
  lemma From8Exact(s: seq<byte>, cap: nat, vs: seq<CodePoint>)
    ensures From8(s, cap) == Done(vs) <==> Converts8(s, cap, vs)
  {
    hide From8, Converts8;
    if From8(s, cap) == Done(vs) { From8Sound(s, cap); }
    if Converts8(s, cap, vs) { From8Complete(s, cap, vs); }
  }

  lemma {:induction false} UnitsNoMore(vs: seq<CodePoint>)
    ensures |Enc16Seq(vs)| <= |Enc8Seq(vs)|
  {
    if |vs| > 0 {
      UnitsNoMore(vs[1..]);
      hide Enc8Seq, Enc16Seq;
    }
  }

  /** With a unit for every byte, conversion succeeds exactly on well-formed UTF-8, and converts it all. */
  lemma ConvertsWellFormed(s: seq<byte>, cap: nat)
    requires cap >= |s|
    ensures From8(s, cap).Done? <==> WellFormed8(s)
    ensures From8(s, cap).Done? ==> Scalars(From8(s, cap).points) && Enc8Seq(From8(s, cap).points) == s
  {
    hide From8, Enc8Seq, Enc16Seq;
    if From8(s, cap).Done? {
      From8Sound(s, cap);
      UnitsNoMore(From8(s, cap).points);
    }
    if WellFormed8(s) {
      var vs: seq<CodePoint> :| Scalars(vs) && Enc8Seq(vs) == s;
      UnitsNoMore(vs);
      From8Complete(s, cap, vs);
    }
  }

  /** A well-formed string is converted as a whole exactly when its units fit. */
  lemma WholeStringFits(vs: seq<CodePoint>, cap: nat)
    requires Scalars(vs)
    ensures From8(Enc8Seq(vs), cap) == Done(vs) <==> |Enc16Seq(vs)| <= cap
  {
    From8Exact(Enc8Seq(vs), cap, vs);
    hide From8, Enc8Seq, Enc16Seq;
  }

  /** Success does not mean the whole string was converted: the room may have run out between characters. */
  lemma TruncatedSuccess()
    ensures From8([0x61, 0x62], 1) == Done([0x61])
  {
    var vs: seq<CodePoint> := [0x61];
    assert vs[1..] == [];
    assert Enc8Seq(vs) == Enc8(0x61) + Enc8Seq([]) == [0x61];
    assert Enc16Seq(vs) == Enc16(0x61) + Enc16Seq([]) == [0x61];
    From8Complete([0x61, 0x62], 1, vs);
  }

  // UTF-16 to UTF-8

  predicate NoHigh(vs: seq<CodePoint>) { forall i :: 0 <= i < |vs| ==> !IsHigh(vs[i]) }

  /** The units after those of vs are none, or more than the room allows, or one high surrogate. */
  ghost predicate Converts16(u: seq<unit>, cap: nat, vs: seq<CodePoint>)
  {
    && NoHigh(vs) && Enc16Seq(vs) <= u && |Enc8Seq(vs)| <= cap
    && var rest := u[|Enc16Seq(vs)|..];
       |rest| == 0 || |Enc8Seq(vs)| == cap || (|rest| == 1 && IsHigh(rest[0]))
  }

  lemma Converts16Cons(u: seq<unit>, cap: nat, v: CodePoint, ws: seq<CodePoint>)
    requires Next16(u, cap, v)
    ensures Converts16(u, cap, [v] + ws) <==> Converts16(u[|Enc16(v)|..], cap - |Enc8(v)|, ws)
  {
    hide Enc8, Enc16;
    var vs, n, rest := [v] + ws, |Enc16(v)|, u[|Enc16(v)|..];
    assert vs[1..] == ws;
    assert u == Enc16(v) + rest;
    assert Enc8Seq(vs) == Enc8(v) + Enc8Seq(ws) && Enc16Seq(vs) == Enc16(v) + Enc16Seq(ws);
    hide Enc8Seq, Enc16Seq;
    if Enc16Seq(vs) <= u { assert Enc16Seq(vs)[n..] == Enc16Seq(ws); }
    if Enc16Seq(ws) <= rest { assert u[|Enc16Seq(vs)|..] == rest[|Enc16Seq(ws)|..]; }
    if NoHigh(vs) { assert forall i :: 0 <= i < |ws| ==> ws[i] == vs[i + 1]; }
  }

  lemma {:induction false} From16Sound(u: seq<unit>, cap: nat)
    requires From16(u, cap).Done?
    ensures Converts16(u, cap, From16(u, cap).points)
    decreases |u|
  {
    hide Enc8, Enc16, Pick16;
    if |u| > 0 && cap > 0 && !(|u| == 1 && IsHigh(u[0])) {
      var v := Pick16(u, cap);
      var rest, room := u[|Enc16(v)|..], cap - |Enc8(v)|;
      From16Sound(rest, room);
      Converts16Cons(u, cap, v, From16(rest, room).points);
      hide Converts16;
    }
  }

  lemma FirstUnit(v: CodePoint, u: seq<unit>)
    requires Enc16(v) <= u && !IsHigh(v)
    ensures !(|u| == 1 && IsHigh(u[0]))
  {
    assert Enc16(v)[0] == u[0];
  }

  lemma {:induction false} From16Complete(u: seq<unit>, cap: nat, vs: seq<CodePoint>)
    requires Converts16(u, cap, vs)
    ensures From16(u, cap) == Done(vs)
    decreases |vs|
  {
    hide Enc8, Enc16;
    if |vs| > 0 {
      var v, ws := vs[0], vs[1..];
      assert Enc16(v) <= u by { assert Enc16(v) <= Enc16Seq(vs); }
      FirstUnit(v, u);
      assert vs == [v] + ws;
      Converts16Cons(u, cap, v, ws);
      From16Complete(u[|Enc16(v)|..], cap - |Enc8(v)|, ws);
      From16Step(u, cap, v);
    }
  }

  lemma From16Exact(u: seq<unit>, cap: nat, vs: seq<CodePoint>)
    ensures From16(u, cap) == Done(vs) <==> Converts16(u, cap, vs)
  {
    hide From16, Converts16;
    if From16(u, cap) == Done(vs) { From16Sound(u, cap); }
    if Converts16(u, cap, vs) { From16Complete(u, cap, vs); }
  }

  /** Well-formed UTF-16 converts as a whole, to the UTF-8 of the same scalar values, exactly when that fits. */
  lemma ConvertsWellFormed16(vs: seq<CodePoint>, cap: nat)
    requires Scalars(vs)
    ensures From16(Enc16Seq(vs), cap) == Done(vs) <==> |Enc8Seq(vs)| <= cap
  {
    From16Exact(Enc16Seq(vs), cap, vs);
    hide From16, Enc8Seq, Enc16Seq;
  }

  /** In this direction too, success may leave out the end of the text. */
  lemma TruncatedSuccess16()
    ensures From16([0x61, 0x62], 1) == Done([0x61])
  {
    var vs: seq<CodePoint> := [0x61];
    assert vs[1..] == [];
    assert Enc8Seq(vs) == Enc8(0x61) + Enc8Seq([]) == [0x61];
    assert Enc16Seq(vs) == Enc16(0x61) + Enc16Seq([]) == [0x61];
    From16Complete([0x61, 0x62], 1, vs);
  }

  /** Ill-formed UTF-16 may convert too: a lone low surrogate, and a high surrogate at the end. */
  lemma LoneSurrogates()
    ensures From16([0xDC00], 3) == Done([0xDC00])
    ensures From16([0xD800], 3) == Done([])
  {
    var vs: seq<CodePoint> := [0xDC00];
    assert vs[1..] == [];
    assert Enc16Seq(vs) == Enc16(0xDC00) + Enc16Seq([]) == [0xDC00];
    assert Enc8Seq(vs) == Enc8(0xDC00) + Enc8Seq([]) == Enc8(0xDC00);
    From16Complete([0xDC00], 3, vs);
  }

  // Which UTF-16 is accepted, and which is well-formed

  /** u is well-formed UTF-16: the encoding of some sequence of scalar values. */
  ghost predicate WellFormed16(u: seq<unit>)
  {
    exists vs: seq<CodePoint> :: Scalars(vs) && Enc16Seq(vs) == u
  }

  /** Every high surrogate that is not the last unit is followed by a low one. */
  predicate HighsPaired(u: seq<unit>)
  {
    forall i :: 0 <= i < |u| - 1 && IsHigh(u[i]) ==> IsLow(u[i + 1])
  }

  /** Every low surrogate follows a high one. */
  predicate LowsPaired(u: seq<unit>)
  {
    forall i :: 0 <= i < |u| && IsLow(u[i]) ==> i > 0 && IsHigh(u[i - 1])
  }

  predicate EndsHigh(u: seq<unit>)
  {
    |u| > 0 && IsHigh(u[|u| - 1])
  }

  function PairPoint(high: unit, low: unit): (v: CodePoint)
    requires IsHigh(high) && IsLow(low)
    ensures IsScalar(v) && Enc16(v) == [high, low] && |Enc8(v)| == 4
    ensures v == 0x1_0000 + 1024 * (high as int - 0xD800) + (low as int - 0xDC00)
  {
    0x1_0000 + 1024 * (high as int - 0xD800) + (low as int - 0xDC00)
  }

  /** With room for any encoding, conversion succeeds exactly when the high surrogates are paired. */
  lemma {:induction false} AcceptedExactly(u: seq<unit>, cap: nat)
    requires cap >= 3 * |u|
    ensures From16(u, cap).Done? <==> HighsPaired(u)
    decreases |u|
  {
    hide From16, Enc8;
    if |u| <= 1 && (|u| == 0 || IsHigh(u[0])) {
      NothingLeft(u, cap);
    } else if !IsHigh(u[0]) {
      var v: CodePoint := u[0];
      EncShort(v);
      From16Step(u, cap, v);
      AcceptedExactly(u[1..], cap - |Enc8(v)|);
      assert forall i :: 0 < i < |u| ==> u[i] == u[1..][i - 1];
    } else if IsLow(u[1]) {
      var v := PairPoint(u[0], u[1]);
      From16Step(u, cap, v);
      AcceptedExactly(u[2..], cap - 4);
      assert forall i :: 1 < i < |u| ==> u[i] == u[2..][i - 2];
    } else {
      UnpairedFails(u, cap);
    }
  }

  lemma NothingLeft(u: seq<unit>, cap: nat)
    requires |u| == 0 || (|u| == 1 && IsHigh(u[0]))
    ensures From16(u, cap) == Done([])
  {
  }

  lemma EncShort(v: CodePoint)
    requires v <= 0xFFFF
    ensures Enc16(v) == [v] && |Enc8(v)| <= 3
  {
  }

  lemma UnpairedFails(u: seq<unit>, cap: nat)
    requires cap > 0 && |u| >= 2 && IsHigh(u[0]) && !IsLow(u[1])
    ensures From16(u, cap) == Failed
  {
    forall v: CodePoint ensures !Next16(u, cap, v) {
    }
  }

  /** Well-formed UTF-16, unit by unit: surrogates come in pairs only. */
  lemma WellFormed16Exact(u: seq<unit>)
    ensures WellFormed16(u) <==> HighsPaired(u) && LowsPaired(u) && !EndsHigh(u)
  {
    if WellFormed16(u) {
      var vs: seq<CodePoint> :| Scalars(vs) && Enc16Seq(vs) == u;
      EncodedPairs(vs);
    }
    if HighsPaired(u) && LowsPaired(u) && !EndsHigh(u) {
      var vs := Decoded(u);
    }
  }

  lemma {:induction false} EncodedPairs(vs: seq<CodePoint>)
    requires Scalars(vs)
    ensures var u := Enc16Seq(vs); HighsPaired(u) && LowsPaired(u) && !EndsHigh(u)
  {
    if |vs| > 0 {
      EncodedPairs(vs[1..]);
      PairsInFront(vs[0], Enc16Seq(vs[1..]));
    }
  }

  lemma PairsInFront(v: CodePoint, rest: seq<unit>)
    requires IsScalar(v) && HighsPaired(rest) && LowsPaired(rest) && !EndsHigh(rest)
    ensures var u := Enc16(v) + rest; HighsPaired(u) && LowsPaired(u) && !EndsHigh(u)
  {
    var u, n := Enc16(v) + rest, |Enc16(v)|;
    assert forall i :: n <= i < |u| ==> u[i] == rest[i - n];
    assert |rest| > 0 ==> !IsLow(rest[0]);
  }

  lemma FirstPoint(u: seq<unit>) returns (v: CodePoint)
    requires |u| > 0 && HighsPaired(u) && LowsPaired(u) && !EndsHigh(u)
    ensures IsScalar(v) && Enc16(v) <= u
    ensures var rest := u[|Enc16(v)|..]; HighsPaired(rest) && LowsPaired(rest) && !EndsHigh(rest)
  {
    hide Enc8;
    if IsHigh(u[0]) {
      v := PairPoint(u[0], u[1]);
    } else {
      v := u[0];
    }
    var n := |Enc16(v)|;
    assert forall i :: 0 <= i < |u| - n ==> u[n..][i] == u[i + n];
  }

  /** The scalar values that paired units encode. */
  lemma {:induction false} Decoded(u: seq<unit>) returns (vs: seq<CodePoint>)
    requires HighsPaired(u) && LowsPaired(u) && !EndsHigh(u)
    ensures Scalars(vs) && Enc16Seq(vs) == u
    decreases |u|
  {
    hide Enc16, HighsPaired, LowsPaired, EndsHigh, IsScalar;
    if |u| == 0 {
      vs := [];
    } else {
      var v := FirstPoint(u);
      var rest := u[|Enc16(v)|..];
      var ws := Decoded(rest);
      vs := [v] + ws;
      assert vs[1..] == ws && u == Enc16(v) + rest;
    }
  }

  /** An accepted input is well-formed exactly when it does not end in a high surrogate and no low one stands alone. */
  lemma AcceptedWellFormed(u: seq<unit>, cap: nat)
    requires cap >= 3 * |u| && From16(u, cap).Done?
    ensures WellFormed16(u) <==> LowsPaired(u) && !EndsHigh(u)
  {
    hide From16, WellFormed16;
    AcceptedExactly(u, cap);
    WellFormed16Exact(u);
  }

  // Round trip

  lemma {:induction false} NoNullUnits(vs: seq<CodePoint>)
    requires forall i :: 0 <= i < |Enc8Seq(vs)| ==> Enc8Seq(vs)[i] != 0
    ensures forall i :: 0 <= i < |Enc16Seq(vs)| ==> Enc16Seq(vs)[i] != 0
  {
    if |vs| > 0 {
      var rest := Enc8Seq(vs[1..]);
      assert Enc8Seq(vs) == Enc8(vs[0]) + rest;
      forall i | 0 <= i < |rest| ensures rest[i] != 0 { assert rest[i] == Enc8Seq(vs)[|Enc8(vs[0])| + i]; }
      NoNullUnits(vs[1..]);
      assert Enc8Seq(vs)[0] == Enc8(vs[0])[0];
      assert vs[0] != 0;
    }
  }

  /** A terminator ends the text, whatever follows it. */
  lemma {:induction false} TextOfArray(a: seq<unit>, u: seq<unit>)
    requires u + [0] <= a && forall i :: 0 <= i < |u| ==> u[i] != 0
    ensures Text(a) == u
  {
    if |u| > 0 {
      assert a[0] == (u + [0])[0] == u[0];
      assert a[1..][..|u|] == (u + [0])[1..] == u[1..] + [0];
      TextOfArray(a[1..], u[1..]);
    }
  }

  /** The two converters one after the other on well-formed UTF-8: the same string, terminated, comes back. */
  method RoundTrip(s: seq<byte>, utf16: array<unit>, utf8: array<byte>) returns (ok: bool)
    requires forall i :: 0 <= i < |s| ==> s[i] != 0
    requires |s| < utf16.Length && |s| < utf8.Length
    modifies utf16, utf8
    ensures WellFormed8(s) ==> ok && utf8[..|s| + 1] == s + [0]
    ensures ok ==> WellFormed8(s)
  {
    hide From8, From16, Enc8Seq, Enc16Seq, WellFormed8, Text;
    ConvertsWellFormed(s, utf16.Length - 1);
    ok := Utf8ToUtf16(s, utf16, utf16.Length);
    if ok {
      ghost var vs := From8(s, utf16.Length - 1).points;
      NoNullUnits(vs);
      TextOfArray(utf16[..], Enc16Seq(vs));
      ConvertsWellFormed16(vs, utf8.Length - 1);
      ok := Utf16ToUtf8(utf16[..], utf8, utf8.Length);
    }
  }
}
