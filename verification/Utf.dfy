/** UTF-8 (section 3 of RFC 3629) and UTF-16 (section 2.1 of RFC 2781) encodings of code points. */
module Utf {
  import opened Words

  type unit = x: int | 0 <= x < 0x1_0000

  /** Any code point; the encoding formulas below make sense for all of them. */
  type CodePoint = v: int | 0 <= v <= 0x10FFFF

  /** A Unicode scalar value: not a surrogate. */
  predicate IsScalar(v: CodePoint) { v <= 0xD7FF || 0xE000 <= v }

  predicate IsHigh(u: int) { 0xD800 <= u <= 0xDBFF }
  predicate IsLow(u: int) { 0xDC00 <= u <= 0xDFFF }

  function Enc8(v: CodePoint): (s: seq<byte>)
    ensures 1 <= |s| <= 4
  {
    if v <= 0x7F then [v]
    else if v <= 0x7FF then [0xC0 + v / 64, 0x80 + v % 64]
    else if v <= 0xFFFF then [0xE0 + v / 4096, 0x80 + v / 64 % 64, 0x80 + v % 64]
    else [0xF0 + v / 0x4_0000, 0x80 + v / 4096 % 64, 0x80 + v / 64 % 64, 0x80 + v % 64]
  }

  function Enc16(v: CodePoint): (s: seq<unit>)
    ensures 1 <= |s| <= 2
  {
    if v <= 0xFFFF then [v] else [0xD800 + (v / 1024 - 64), 0xDC00 + v % 1024]
  }

  /** What the bytes of an encoding stand for (section 3 of RFC 3629): the bits of the lead byte come first. */
  lemma Enc8Value(v: CodePoint)
    ensures var e := Enc8(v);
            && (v <= 0x7F ==> |e| == 1 && v == e[0])
            && (0x7F < v <= 0x7FF ==> |e| == 2 && v == 64 * (e[0] as int - 0xC0) + (e[1] as int - 0x80))
            && (0x7FF < v <= 0xFFFF ==>
                  |e| == 3 && v == 4096 * (e[0] as int - 0xE0) + 64 * (e[1] as int - 0x80) + (e[2] as int - 0x80))
            && (0xFFFF < v ==>
                  |e| == 4 && v == 0x4_0000 * (e[0] as int - 0xF0) + 4096 * (e[1] as int - 0x80)
                                   + 64 * (e[2] as int - 0x80) + (e[3] as int - 0x80))
    ensures forall i :: 0 < i < |Enc8(v)| ==> 0x80 <= Enc8(v)[i] <= 0xBF
  {
    var q := v / 64;
    assert v == 64 * q + v % 64 && q == 64 * (q / 64) + q % 64 && v / 4096 == q / 64;
    assert q / 64 == 64 * (q / 4096) + q / 64 % 64 && v / 0x4_0000 == q / 4096;
  }

  /** What the units stand for (section 2.1 of RFC 2781): the high surrogate holds the upper ten bits. */
  lemma Enc16Value(v: CodePoint)
    ensures var e := Enc16(v);
            && (v <= 0xFFFF ==> e == [v])
            && (0xFFFF < v ==>
                  |e| == 2 && IsHigh(e[0]) && IsLow(e[1])
                  && v == 0x1_0000 + 1024 * (e[0] as int - 0xD800) + (e[1] as int - 0xDC00))
  {
  }

  function Enc8Seq(vs: seq<CodePoint>): seq<byte>
  {
    if |vs| == 0 then [] else Enc8(vs[0]) + Enc8Seq(vs[1..])
  }

  function Enc16Seq(vs: seq<CodePoint>): seq<unit>
  {
    if |vs| == 0 then [] else Enc16(vs[0]) + Enc16Seq(vs[1..])
  }

  lemma {:induction false} Enc8Snoc(vs: seq<CodePoint>, v: CodePoint)
    ensures Enc8Seq(vs + [v]) == Enc8Seq(vs) + Enc8(v)
  {
    if |vs| == 0 {
      assert vs + [v] == [v] && [v][1..] == [];
    } else {
      assert (vs + [v])[1..] == vs[1..] + [v];
      Enc8Snoc(vs[1..], v);
    }
  }

  lemma {:induction false} Enc16Snoc(vs: seq<CodePoint>, v: CodePoint)
    ensures Enc16Seq(vs + [v]) == Enc16Seq(vs) + Enc16(v)
  {
    if |vs| == 0 {
      assert vs + [v] == [v] && [v][1..] == [];
    } else {
      assert (vs + [v])[1..] == vs[1..] + [v];
      Enc16Snoc(vs[1..], v);
    }
  }

  predicate Scalars(vs: seq<CodePoint>) { forall i :: 0 <= i < |vs| ==> IsScalar(vs[i]) }

  // Shape of UTF-8 sequences

  /** How many bytes a lead byte announces; 0 for a byte that cannot lead. */
  function Units(b: byte): nat
  {
    if b <= 0x7F then 1
    else if 0xC2 <= b <= 0xDF then 2
    else if 0xE0 <= b <= 0xEF then 3
    else if 0xF0 <= b <= 0xF4 then 4
    else 0
  }

  predicate IsTrail(b: byte) { 0x80 <= b <= 0xBF }

  /** The bits a lead byte contributes. */
  function LeadBits(b: byte): nat
  {
    match Units(b) case 1 => b case 2 => b % 32 case 3 => b % 16 case _ => b % 8
  }

  /** The six bits a trail byte contributes. */
  function TrailBits(b: byte): nat { b % 64 }

  /** The number spelt by a lead byte and the trail bytes after it. */
  function Bits(q: seq<byte>): nat
  {
    if |q| == 0 then 0 else if |q| == 1 then LeadBits(q[0]) else 64 * Bits(q[..|q| - 1]) + TrailBits(q[|q| - 1])
  }

  lemma BitsSnoc(q: seq<byte>, b: byte)
    requires |q| >= 1
    ensures Bits(q + [b]) == 64 * Bits(q) + TrailBits(b)
  {
    assert (q + [b])[..|q|] == q;
  }

  /** A lead byte and the right number of trail bytes, perhaps still incomplete. */
  predicate Shaped(q: seq<byte>)
  {
    |q| >= 1 && |q| <= Units(q[0]) && forall i :: 1 <= i < |q| ==> IsTrail(q[i])
  }

  lemma EncShaped(v: CodePoint)
    ensures Shaped(Enc8(v)) && |Enc8(v)| == Units(Enc8(v)[0])
  {
  }

  lemma BitsShort(q: seq<byte>)
    ensures |q| == 1 ==> Bits(q) == LeadBits(q[0])
    ensures |q| == 2 ==> Bits(q) == 64 * LeadBits(q[0]) + TrailBits(q[1])
    ensures |q| == 3 ==> Bits(q) == 4096 * LeadBits(q[0]) + 64 * TrailBits(q[1]) + TrailBits(q[2])
    ensures |q| == 4 ==>
              Bits(q) == 0x4_0000 * LeadBits(q[0]) + 4096 * TrailBits(q[1]) + 64 * TrailBits(q[2]) + TrailBits(q[3])
  {
    hide LeadBits, TrailBits;
    if |q| >= 2 { BitsSnoc(q[..1], q[1]); }
    if |q| == 2 { assert q == q[..1] + [q[1]]; }
    if |q| >= 3 { assert q[..2] == q[..1] + [q[1]]; BitsSnoc(q[..2], q[2]); }
    if |q| == 3 { assert q == q[..2] + [q[2]]; }
    if |q| == 4 { assert q[..3] == q[..2] + [q[2]]; BitsSnoc(q[..3], q[3]); assert q == q[..3] + [q[3]]; }
  }

  /** A lead byte is a marker plus its bits, and so is a trail byte. */
  lemma LeadParts(b: byte)
    ensures Units(b) == 2 ==> b == 0xC0 + LeadBits(b) && 2 <= LeadBits(b) < 32
    ensures Units(b) == 3 ==> b == 0xE0 + LeadBits(b) && LeadBits(b) < 16
    ensures Units(b) == 4 ==> b == 0xF0 + LeadBits(b) && LeadBits(b) <= 4
    ensures IsTrail(b) ==> b == 0x80 + TrailBits(b) && TrailBits(b) < 64
  {
  }

  lemma BitsOfEnc(v: CodePoint)
    ensures Bits(Enc8(v)) == v
  {
    hide Bits, LeadBits, TrailBits;
    var e := Enc8(v);
    BitsShort(e);
    EncShaped(v);
    LeadParts(e[0]);
    Sextets(v);
    if |e| == 1 {
      OneByte(e[0]);
    }
    if |e| >= 2 { LeadParts(e[1]); }
    if |e| >= 3 { LeadParts(e[2]); }
    if |e| >= 4 { LeadParts(e[3]); }
  }

  lemma OneByte(b: byte)
    ensures b <= 0x7F ==> LeadBits(b) == b
  {
  }

  lemma Sextets(v: nat)
    ensures v / 64 / 64 == v / 4096 && v / 4096 / 64 == v / 0x4_0000
    ensures v == 64 * (v / 64) + v % 64
    ensures v / 64 == 64 * (v / 4096) + v / 64 % 64
    ensures v / 4096 == 64 * (v / 0x4_0000) + v / 4096 % 64
  {
  }

  /** The least number that needs n bytes. */
  function Shortest(n: nat): nat
  {
    match n case 2 => 0x80 case 3 => 0x800 case 4 => 0x1_0000 case _ => 0
  }

  lemma EncLongEnough(v: CodePoint)
    ensures Shortest(|Enc8(v)|) <= v
  {
  }

  /** A complete sequence that is not overlong is the encoding of the number it spells. */
  lemma EncOfBits(q: seq<byte>)
    requires Shaped(q) && |q| == Units(q[0])
    requires Shortest(|q|) <= Bits(q) <= 0x10FFFF
    ensures Enc8(Bits(q)) == q
  {
    hide Bits, LeadBits, TrailBits, Enc8;
    BitsShort(q);
    var n := |q|;
    if n == 1 {
      OneByte(q[0]);
      EncOne(q[0]);
      assert q == [q[0]];
    } else if n == 2 {
      LeadParts(q[0]);
      LeadParts(q[1]);
      EncTwo(LeadBits(q[0]), TrailBits(q[1]));
      assert q == [q[0], q[1]];
    } else if n == 3 {
      LeadParts(q[0]);
      LeadParts(q[1]);
      LeadParts(q[2]);
      EncThree(LeadBits(q[0]), TrailBits(q[1]), TrailBits(q[2]));
      assert q == [q[0], q[1], q[2]];
    } else {
      LeadParts(q[0]);
      LeadParts(q[1]);
      LeadParts(q[2]);
      LeadParts(q[3]);
      EncFour(LeadBits(q[0]), TrailBits(q[1]), TrailBits(q[2]), TrailBits(q[3]));
      assert q == [q[0], q[1], q[2], q[3]];
    }
  }

  lemma EncOne(b: byte)
    requires b <= 0x7F
    ensures Enc8(b) == [b]
  {
  }

  lemma EncTwo(h: nat, x: nat)
    requires 2 <= h < 32 && x < 64
    ensures Enc8(64 * h + x) == [0xC0 + h, 0x80 + x]
  {
    Compose(h, x);
  }

  lemma EncThree(h: nat, x: nat, y: nat)
    requires h < 16 && x < 64 && y < 64
    requires 0x800 <= 4096 * h + 64 * x + y
    ensures Enc8(4096 * h + 64 * x + y) == [0xE0 + h, 0x80 + x, 0x80 + y]
  {
    var a := 64 * h + x;
    var v := 64 * a + y;
    Compose(h, x);
    Compose(a, y);
    assert v == 4096 * h + 64 * x + y && 0x800 <= v <= 0xFFFF;
    Sextets(v);
    assert v / 4096 == h;
  }

  lemma EncFour(h: nat, x: nat, y: nat, z: nat)
    requires h <= 4 && x < 64 && y < 64 && z < 64
    requires 0x1_0000 <= 0x4_0000 * h + 4096 * x + 64 * y + z <= 0x10FFFF
    ensures Enc8(0x4_0000 * h + 4096 * x + 64 * y + z) == [0xF0 + h, 0x80 + x, 0x80 + y, 0x80 + z]
  {
    var a := 64 * h + x;
    var b := 64 * a + y;
    var v := 64 * b + z;
    Compose(h, x);
    Compose(a, y);
    Compose(b, z);
    assert v == 0x4_0000 * h + 4096 * x + 64 * y + z && 0x1_0000 <= v;
    Sextets(v);
    assert v / 4096 == a && v / 0x4_0000 == h;
  }

  lemma Compose(a: nat, x: nat)
    requires x < 64
    ensures (64 * a + x) / 64 == a && (64 * a + x) % 64 == x
  {
  }

  /** An encoding found at the front of t is as long as its lead byte says. */
  lemma EncPrefix(v: CodePoint, t: seq<byte>)
    requires Enc8(v) <= t
    ensures |t| >= 1 && |Enc8(v)| == Units(t[0]) <= |t| && Enc8(v) == t[..Units(t[0])] && Shaped(t[..Units(t[0])])
  {
    EncShaped(v);
  }

  lemma EncUnique(v: CodePoint, w: CodePoint, t: seq<byte>)
    requires Enc8(v) <= t && Enc8(w) <= t
    ensures v == w
  {
    EncPrefix(v, t);
    EncPrefix(w, t);
    BitsOfEnc(v);
    BitsOfEnc(w);
  }

  lemma Enc16Unique(v: CodePoint, w: CodePoint, t: seq<unit>)
    requires !IsHigh(v) && !IsHigh(w)
    requires Enc16(v) <= t && Enc16(w) <= t
    ensures v == w
  {
    assert Enc16(v)[0] == t[0] == Enc16(w)[0];
    if v > 0xFFFF && w > 0xFFFF {
      assert Enc16(v)[1] == t[1] == Enc16(w)[1];
    }
  }

  // Reference transcoders: encoding by encoding, as long as there is input and room

  datatype Outcome = Done(points: seq<CodePoint>) | Failed

  function Prepend(vs: seq<CodePoint>, o: Outcome): Outcome
  {
    match o case Done(ws) => Done(vs + ws) case Failed => Failed
  }

  /** A scalar value whose UTF-8 is at the front of s and whose UTF-16 fits. */
  ghost predicate Next8(s: seq<byte>, room: nat, v: CodePoint)
  {
    IsScalar(v) && Enc8(v) <= s && |Enc16(v)| <= room
  }

  ghost function Pick8(s: seq<byte>, room: nat): (v: CodePoint)
    requires exists v: CodePoint :: Next8(s, room, v)
    ensures Next8(s, room, v)
  {
    var v: CodePoint :| Next8(s, room, v);
    v
  }

  ghost function From8(s: seq<byte>, room: nat): Outcome
    decreases |s|
  {
    if |s| == 0 || room == 0 then Done([])
    else if exists v: CodePoint :: Next8(s, room, v) then
      var v := Pick8(s, room);
      Prepend([v], From8(s[|Enc8(v)|..], room - |Enc16(v)|))
    else Failed
  }

  /** A code point other than a high surrogate whose UTF-16 is at the front of u and whose UTF-8 fits. */
  ghost predicate Next16(u: seq<unit>, room: nat, v: CodePoint)
  {
    !IsHigh(v) && Enc16(v) <= u && |Enc8(v)| <= room
  }

  ghost function Pick16(u: seq<unit>, room: nat): (v: CodePoint)
    requires exists v: CodePoint :: Next16(u, room, v)
    ensures Next16(u, room, v)
  {
    var v: CodePoint :| Next16(u, room, v);
    v
  }

  ghost function From16(u: seq<unit>, room: nat): Outcome
    decreases |u|
  {
    if |u| == 0 || room == 0 || (|u| == 1 && IsHigh(u[0])) then Done([])
    else if exists v: CodePoint :: Next16(u, room, v) then
      var v := Pick16(u, room);
      Prepend([v], From16(u[|Enc16(v)|..], room - |Enc8(v)|))
    else Failed
  }

  lemma From8Step(s: seq<byte>, room: nat, v: CodePoint)
    requires Next8(s, room, v) && room > 0
    ensures From8(s, room) == Prepend([v], From8(s[|Enc8(v)|..], room - |Enc16(v)|))
  {
    hide Pick8, Enc8, Enc16;
    EncUnique(v, Pick8(s, room), s);
  }

  lemma From16Step(u: seq<unit>, room: nat, v: CodePoint)
    requires Next16(u, room, v) && room > 0 && !(|u| == 1 && IsHigh(u[0]))
    ensures From16(u, room) == Prepend([v], From16(u[|Enc16(v)|..], room - |Enc8(v)|))
  {
    hide Pick16, Enc8, Enc16;
    Enc16Unique(v, Pick16(u, room), u);
  }
}
