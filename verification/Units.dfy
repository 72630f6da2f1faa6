/** Units of .debug_info: their headers, the loop that finds them, and the scan that finds
    the unit holding a section offset (section 7.4 and 7.5.1.1 of DWARF Version 4). */
module Units {
  import opened Outcomes
  import opened Words
  import opened Sections
  import opened Cursors

  /** A unit's section starts at its header; offsets in it are relative to that. */
  datatype Unit = Unit(offset: nat, sec: Section, abbrevOffset: u64, root: nat)

  function InitialLength(fmt: Format): nat {
    if fmt == Dwarf64 then 12 else 4
  }

  function ReadUnit(info: Section, off: nat): (r: Outcome<Unit>)
    ensures r.Value? ==>
      r.value.offset == off && 7 <= |r.value.sec.data| && off + |r.value.sec.data| <= |info.data|
    ensures r.Value? ==>
      ReadSubsection(info, off) == Value((r.value.sec.(addrSize := 0), off + |r.value.sec.data|))
  {
    var (sub, _) :- ReadSubsection(info, off);
    var p := InitialLength(sub.fmt);
    var (version, q) :- ReadFixed(sub, 2, p);
    if version > 5 then Throw(Format)
    else if version == 5 then
      // The unit type byte is skipped, and the two following fields change places.
      var (addrSize, a) :- ReadFixed(sub, 1, q + 1);
      var (abbrevOffset, root) :- ReadOffset(sub, a);
      Value(Unit(off, sub.(addrSize := addrSize), abbrevOffset, root))
    else
      var (abbrevOffset, a) :- ReadOffset(sub, q);
      var (addrSize, root) :- ReadFixed(sub, 1, a);
      Value(Unit(off, sub.(addrSize := addrSize), abbrevOffset, root))
  }

  function ReadUnits(info: Section, pos: nat): Outcome<seq<Unit>>
    decreases |info.data| - pos
  {
    if pos >= |info.data| then Value([])
    else
      var u :- ReadUnit(info, pos);
      var rest :- ReadUnits(info, pos + |u.sec.data|);
      Value([u] + rest)
  }

  method UnitAt(info: Section, off: nat) returns (r: Outcome<Unit>)
    ensures r == ReadUnit(info, off)
  {
    hide ReadSubsection, ReadFixed, ReadOffset;
    var cur := new Cursor(info, off);
    var subsec :- cur.Subsection();
    var sub := new Cursor(subsec, 0);
    var _ := sub.SkipInitialLength();  // the format is known here
    var version :- sub.Fixed(2);
    if version > 5 {
      return Throw(Format);
    }
    var abbrevOffset, addrSize;
    if version >= 5 {
      sub.pos := sub.pos + 1;
      addrSize :- sub.Fixed(1);
      abbrevOffset :- sub.Offset();
    } else {
      abbrevOffset :- sub.Offset();
      addrSize :- sub.Fixed(1);
    }
    return Value(Unit(off, subsec.(addrSize := addrSize), abbrevOffset, sub.pos));
  }

  method FindUnits(info: Section) returns (r: Outcome<seq<Unit>>)
    ensures r == ReadUnits(info, 0)
  {
    hide ReadUnit, ReadSubsection;
    var units: seq<Unit> := [];
    var cur := new Cursor(info, 0);
    PrependNone(ReadUnits(info, 0));
    while !cur.End()
      invariant fresh(cur) && cur.sec == info
      invariant Prepend(units, ReadUnits(info, cur.pos)) == ReadUnits(info, 0)
      decreases |info.data| - cur.pos
    {
      var u :- UnitAt(info, cur.pos);
      PrependMore(units, [u], ReadUnits(info, cur.pos + |u.sec.data|));
      units := units + [u];
      var _ := cur.Subsection();  // read once already, by UnitAt
    }
    PrependMore(units, [], Value([]));
    return Value(units);
  }

  /** The units lie one after the other from `pos` to the end of the section. */
  ghost predicate Tiles(us: seq<Unit>, pos: nat, end: nat) {
    if us == [] then pos == end
    else us[0].offset == pos && us[0].sec.data != [] && Tiles(us[1..], pos + |us[0].sec.data|, end)
  }

  /** Whenever the loop finishes with every unit inside the section, on any bytes, the units tile
      it.  A last unit whose length reaches past the section's end, which the source does not
      check, is `Undefined` and so not a finished loop here. */
  lemma {:induction false} UnitsTile(info: Section, pos: nat)
    requires pos <= |info.data|
    ensures var r := ReadUnits(info, pos); r.Value? ==> Tiles(r.value, pos, |info.data|)
    decreases |info.data| - pos
  {
    hide ReadUnit, ReadSubsection;
    if pos < |info.data| && ReadUnits(info, pos).Value? {
      var u := ReadUnit(info, pos).value;
      UnitsTile(info, pos + |u.sec.data|);
    }
  }

  lemma {:induction false} TilesIncrease(us: seq<Unit>, pos: nat, end: nat, i: nat)
    requires Tiles(us, pos, end) && i < |us|
    ensures pos <= us[i].offset && us[i].offset + |us[i].sec.data| <= end
    ensures us[i].offset < us[i].offset + |us[i].sec.data|
    ensures i + 1 < |us| ==> us[i + 1].offset == us[i].offset + |us[i].sec.data|
    ensures i + 1 == |us| ==> end == us[i].offset + |us[i].sec.data|
    decreases |us|
  {
    if i > 0 {
      TilesIncrease(us[1..], pos + |us[0].sec.data|, end, i - 1);
    } else if |us| > 1 {
      TilesIncrease(us[1..], pos + |us[0].sec.data|, end, 0);
    }
  }

  /** The last unit before the first one that starts past the offset. */
  function Scan(us: seq<Unit>, off: nat): (base: Option<Unit>)
    ensures base.Some? ==> base.value.offset <= off
  {
    if us == [] || us[0].offset > off then None
    else
      match Scan(us[1..], off)
      case Some(u) => Some(u)
      case None => Some(us[0])
  }

  method ScanUnits(us: seq<Unit>, off: nat) returns (base: Option<Unit>)
    ensures base == Scan(us, off)
  {
    base := None;
    for i := 0 to |us|
      invariant Scan(us, off) == if Scan(us[i..], off).Some? then Scan(us[i..], off) else base
    {
      if us[i].offset > off {
        return;
      }
      base := Some(us[i]);
      assert us[i..][1..] == us[i + 1..];
    }
  }

  ghost predicate Holds(u: Unit, off: nat) {
    u.offset <= off < u.offset + |u.sec.data|
  }

  /** In a tiled section the scan finds the one unit whose bytes hold the offset. */
  lemma {:induction false} ScanFindsHolder(us: seq<Unit>, pos: nat, end: nat, off: nat)
    requires Tiles(us, pos, end) && pos <= off < end
    ensures exists u :: Scan(us, off) == Some(u) && u in us && Holds(u, off)
    ensures forall u :: u in us && Holds(u, off) ==> Scan(us, off) == Some(u)
    decreases |us|
  {
    var next := pos + |us[0].sec.data|;
    if off < next {
      NothingBefore(us[1..], next, end, off);
      assert Holds(us[0], off);
    } else {
      ScanFindsHolder(us[1..], next, end, off);
    }
  }

  lemma {:induction false} NothingBefore(us: seq<Unit>, pos: nat, end: nat, off: nat)
    requires Tiles(us, pos, end) && off < pos
    ensures Scan(us, off) == None
    ensures forall u :: u in us ==> !Holds(u, off)
    decreases |us|
  {
    if us != [] {
      NothingBefore(us[1..], pos + |us[0].sec.data|, end, off);
    }
  }

  /** What a producer writes for a unit. */
  datatype UnitText = UnitText(
    fmt: Format, version: nat, unitType: byte, addrSize: byte, abbrevOffset: u64, body: seq<byte>)

  /** The offset fits its field, and the bytes after the length fit the length: all that are not
      reserved, and that the reader can add the length's own bytes to. */
  ghost predicate Writable(t: UnitText) {
    && t.fmt in {Dwarf32, Dwarf64}
    && t.version <= 5
    && t.abbrevOffset < Pow2(8 * OffsetBytes(t.fmt))
    && RestBytes(t) < LengthLimit(t.fmt)
  }

  function RestBytes(t: UnitText): nat {
    (if t.version == 5 then 4 else 3) + OffsetBytes(t.fmt) + |t.body|
  }

  function LengthLimit(fmt: Format): nat {
    if fmt == Dwarf64 then B64 - 12 else 0xfffffff0
  }

  function OffsetBytes(fmt: Format): nat {
    if fmt == Dwarf64 then 8 else 4
  }

  function EncodeRest(ord: Order, t: UnitText): seq<byte> {
    EncodeFixed(ord, 2, t.version)
    + (if t.version == 5
       then [t.unitType] + [t.addrSize] + EncodeFixed(ord, OffsetBytes(t.fmt), t.abbrevOffset)
       else EncodeFixed(ord, OffsetBytes(t.fmt), t.abbrevOffset) + [t.addrSize])
    + t.body
  }

  function EncodeLength(ord: Order, fmt: Format, n: nat): seq<byte> {
    if fmt == Dwarf64 then EncodeFixed(ord, 4, 0xffffffff) + EncodeFixed(ord, 8, n)
    else EncodeFixed(ord, 4, n)
  }

  function EncodeUnit(ord: Order, t: UnitText): seq<byte> {
    EncodeLength(ord, t.fmt, |EncodeRest(ord, t)|) + EncodeRest(ord, t)
  }

  function EncodeUnits(ord: Order, ts: seq<UnitText>): seq<byte> {
    if ts == [] then [] else EncodeUnit(ord, ts[0]) + EncodeUnits(ord, ts[1..])
  }

  /** The unit object for a text written at an offset. */
  ghost function UnitOf(ord: Order, t: UnitText, off: nat): Unit {
    var bytes := EncodeUnit(ord, t);
    Unit(off, Section(bytes, ord, t.fmt, t.addrSize), t.abbrevOffset, |bytes| - |t.body|)
  }

  ghost function UnitsOf(ord: Order, ts: seq<UnitText>, off: nat): seq<Unit> {
    if ts == [] then []
    else [UnitOf(ord, ts[0], off)] + UnitsOf(ord, ts[1..], off + |EncodeUnit(ord, ts[0])|)
  }

  lemma LengthRoundTrip(info: Section, fmt: Format, bytes: seq<byte>, off: nat)
    requires fmt in {Dwarf32, Dwarf64}
    requires |bytes| < LengthLimit(fmt)
    requires At(info.data, off, EncodeLength(info.ord, fmt, |bytes|) + bytes)
    ensures var unit := EncodeLength(info.ord, fmt, |bytes|) + bytes;
            |unit| == InitialLength(fmt) + |bytes| &&
            ReadSubsection(info, off) == Value((Section(unit, info.ord, fmt, 0), off + |unit|))
  {
    hide ReadFixed, EncodeFixed;
    var lead := EncodeLength(info.ord, fmt, |bytes|);
    AtAppend(info.data, off, lead, bytes);
    assert Pow2(32) == B32 && Pow2(64) == B64 by { Pow2Of64(); }
    if fmt == Dwarf64 {
      EncodeFixedLength(info.ord, 4, 0xffffffff);
      EncodeFixedLength(info.ord, 8, |bytes|);
      AtAppend(info.data, off, EncodeFixed(info.ord, 4, 0xffffffff), EncodeFixed(info.ord, 8, |bytes|));
      FixedRoundTrip(info, 4, 0xffffffff, off);
      FixedRoundTrip(info, 8, |bytes|, off + 4);
      SmallMod(|bytes| + 12, B64);
    } else {
      EncodeFixedLength(info.ord, 4, |bytes|);
      FixedRoundTrip(info, 4, |bytes|, off);
    }
  }

  lemma OffsetRoundTrip(s: Section, v: u64, pos: nat)
    requires s.fmt in {Dwarf32, Dwarf64} && v < Pow2(8 * OffsetBytes(s.fmt))
    requires At(s.data, pos, EncodeFixed(s.ord, OffsetBytes(s.fmt), v))
    ensures |EncodeFixed(s.ord, OffsetBytes(s.fmt), v)| == OffsetBytes(s.fmt)
    ensures ReadOffset(s, pos) == Value((v, pos + OffsetBytes(s.fmt)))
  {
    EncodeFixedLength(s.ord, OffsetBytes(s.fmt), v);
    FixedRoundTrip(s, OffsetBytes(s.fmt), v, pos);
  }

  /** The fields of a written header, in either layout of the two last ones: the body's
      offset follows them. */
  lemma HeaderRoundTrip(sub: Section, t: UnitText, p: nat)
    requires Writable(t) && sub.fmt == t.fmt && At(sub.data, p, EncodeRest(sub.ord, t))
    ensures ReadFixed(sub, 2, p) == Value((t.version, p + 2))
    ensures var n := OffsetBytes(t.fmt);
            |EncodeRest(sub.ord, t)| == (if t.version == 5 then 4 else 3) + n + |t.body| &&
            if t.version == 5 then
              ReadFixed(sub, 1, p + 3) == Value((t.addrSize, p + 4)) &&
              ReadOffset(sub, p + 4) == Value((t.abbrevOffset, p + 4 + n))
            else
              ReadOffset(sub, p + 2) == Value((t.abbrevOffset, p + 2 + n)) &&
              ReadFixed(sub, 1, p + 2 + n) == Value((t.addrSize, p + 3 + n))
  {
    hide ReadFixed, EncodeFixed, ReadOffset, At;
    var version := EncodeFixed(sub.ord, 2, t.version);
    var offset := EncodeFixed(sub.ord, OffsetBytes(t.fmt), t.abbrevOffset);
    EncodeFixedLength(sub.ord, 2, t.version);
    EncodeFixedLength(sub.ord, OffsetBytes(t.fmt), t.abbrevOffset);
    assert Pow2(16) == 0x1_0000 by { Pow2Of64(); }
    if t.version == 5 {
      AtAppend(sub.data, p, version + ([t.unitType] + [t.addrSize] + offset), t.body);
      AtAppend(sub.data, p, version, [t.unitType] + [t.addrSize] + offset);
      NewFields(sub, t, p + 2);
    } else {
      AtAppend(sub.data, p, version + (offset + [t.addrSize]), t.body);
      AtAppend(sub.data, p, version, offset + [t.addrSize]);
      OldFields(sub, t, p + 2);
    }
    FixedRoundTrip(sub, 2, t.version, p);
  }

  lemma NewFields(sub: Section, t: UnitText, p: nat)
    requires Writable(t) && sub.fmt == t.fmt
    requires At(sub.data, p, [t.unitType] + [t.addrSize] + EncodeFixed(sub.ord, OffsetBytes(t.fmt), t.abbrevOffset))
    ensures ReadFixed(sub, 1, p + 1) == Value((t.addrSize, p + 2))
    ensures ReadOffset(sub, p + 2) == Value((t.abbrevOffset, p + 2 + OffsetBytes(t.fmt)))
  {
    hide ReadFixed, EncodeFixed, ReadOffset, At;
    var kind: seq<byte>, size: seq<byte> := [t.unitType], [t.addrSize];
    AtAppend(sub.data, p, kind + size, EncodeFixed(sub.ord, OffsetBytes(t.fmt), t.abbrevOffset));
    AtAppend(sub.data, p, kind, size);
    OneByte(sub, p + 1, t.addrSize);
    OffsetRoundTrip(sub, t.abbrevOffset, p + 2);
  }

  lemma OldFields(sub: Section, t: UnitText, p: nat)
    requires Writable(t) && sub.fmt == t.fmt
    requires At(sub.data, p, EncodeFixed(sub.ord, OffsetBytes(t.fmt), t.abbrevOffset) + [t.addrSize])
    ensures ReadOffset(sub, p) == Value((t.abbrevOffset, p + OffsetBytes(t.fmt)))
    ensures ReadFixed(sub, 1, p + OffsetBytes(t.fmt)) == Value((t.addrSize, p + OffsetBytes(t.fmt) + 1))
  {
    hide ReadFixed, EncodeFixed, ReadOffset, At;
    var offset := EncodeFixed(sub.ord, OffsetBytes(t.fmt), t.abbrevOffset);
    AtAppend(sub.data, p, offset, [t.addrSize]);
    OffsetRoundTrip(sub, t.abbrevOffset, p);
    OneByte(sub, p + |offset|, t.addrSize);
  }

  lemma UnitRoundTrip(info: Section, t: UnitText, off: nat)
    requires Writable(t) && At(info.data, off, EncodeUnit(info.ord, t))
    ensures ReadUnit(info, off) == Value(UnitOf(info.ord, t, off))
  {
    hide ReadFixed, EncodeFixed, ReadOffset, ReadSubsection, EncodeLength, Writable;
    var rest := EncodeRest(info.ord, t);
    RestLength(info.ord, t);
    LengthRoundTrip(info, t.fmt, rest, off);
    var unit := EncodeUnit(info.ord, t);
    var sub := Section(unit, info.ord, t.fmt, 0);
    assert unit[InitialLength(t.fmt)..] == rest;
    HeaderRoundTrip(sub, t, InitialLength(t.fmt));
  }

  lemma RestLength(ord: Order, t: UnitText)
    requires Writable(t)
    ensures t.fmt in {Dwarf32, Dwarf64} && t.version <= 5
    ensures |EncodeRest(ord, t)| == RestBytes(t) < LengthLimit(t.fmt)
  {
    EncodeFixedLength(ord, 2, t.version);
    EncodeFixedLength(ord, OffsetBytes(t.fmt), t.abbrevOffset);
  }

  lemma UnitOfBytes(ord: Order, t: UnitText, off: nat)
    ensures UnitOf(ord, t, off).sec.data == EncodeUnit(ord, t)
  {
    hide EncodeUnit;
  }

  lemma ReadUnitsStep(info: Section, pos: nat, u: Unit)
    requires pos < |info.data| && ReadUnit(info, pos) == Value(u)
    ensures ReadUnits(info, pos) == Prepend([u], ReadUnits(info, pos + |u.sec.data|))
  {
    hide ReadUnit, ReadSubsection;
  }

  /** A section written as any mix of 32- and 64-bit units is read back unit by unit. */
  lemma {:induction false} UnitsRoundTrip(info: Section, ts: seq<UnitText>, pos: nat)
    requires forall i :: 0 <= i < |ts| ==> Writable(ts[i])
    requires At(info.data, pos, EncodeUnits(info.ord, ts))
    requires pos + |EncodeUnits(info.ord, ts)| == |info.data|
    ensures ReadUnits(info, pos) == Value(UnitsOf(info.ord, ts, pos))
    decreases |ts|
  {
    hide *;
    if ts == [] {
      NoUnits(info, pos);
    } else {
      var first, rest := ts[0], ts[1..];
      EncodeUnitsStep(info.ord, ts);
      AtAppend(info.data, pos, EncodeUnit(info.ord, first), EncodeUnits(info.ord, rest));
      UnitsRoundTrip(info, rest, pos + |EncodeUnit(info.ord, first)|);
      ReadFirst(info, first, pos, UnitsOf(info.ord, rest, pos + |EncodeUnit(info.ord, first)|));
      UnitsOfStep(info.ord, ts, pos);
    }
  }

  lemma NoUnits(info: Section, pos: nat)
    requires pos + |EncodeUnits(info.ord, [])| == |info.data|
    ensures ReadUnits(info, pos) == Value(UnitsOf(info.ord, [], pos))
  {
    hide ReadUnit, UnitOf, EncodeUnit;
  }

  lemma EncodeUnitsStep(ord: Order, ts: seq<UnitText>)
    requires ts != []
    ensures EncodeUnits(ord, ts) == EncodeUnit(ord, ts[0]) + EncodeUnits(ord, ts[1..])
  {
    hide EncodeUnit;
  }

  lemma ReadFirst(info: Section, t: UnitText, pos: nat, us: seq<Unit>)
    requires Writable(t) && At(info.data, pos, EncodeUnit(info.ord, t))
    requires ReadUnits(info, pos + |EncodeUnit(info.ord, t)|) == Value(us)
    ensures ReadUnits(info, pos) == Value([UnitOf(info.ord, t, pos)] + us)
  {
    hide ReadUnit, EncodeUnit, Writable, UnitOf, ReadUnits;
    UnitRoundTrip(info, t, pos);
    UnitOfBytes(info.ord, t, pos);
    ReadUnitsStep(info, pos, UnitOf(info.ord, t, pos));
  }

  lemma UnitsOfStep(ord: Order, ts: seq<UnitText>, pos: nat)
    requires ts != []
    ensures UnitsOf(ord, ts, pos) == [UnitOf(ord, ts[0], pos)] + UnitsOf(ord, ts[1..], pos + |EncodeUnit(ord, ts[0])|)
  {
    hide UnitOf, EncodeUnit;
  }

  /** A header of a version above 5 is refused. */
  lemma VersionRefused(info: Section, off: nat)
    ensures var sub := ReadSubsection(info, off);
            sub.Value? ==>
              var version := ReadFixed(sub.value.0, 2, if sub.value.0.fmt == Dwarf64 then 12 else 4);
              version.Value? && version.value.0 > 5 ==> ReadUnit(info, off) == Throw(Format)
  {
    hide ReadFixed;
  }
}
