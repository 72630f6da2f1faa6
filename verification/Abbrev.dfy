/** Abbreviation declarations (section 7.5.3 of DWARF Version 4), and the per-unit index
    that keeps them in a dense vector or in a map. */
module Abbrevs {
  import opened Outcomes
  import opened Words
  import opened Sections
  import opened Forms
  import opened Values
  import opened Cursors
  import Leb128

  datatype Spec = Spec(name: u32, form: Form, typ: Type)

  datatype Entry = Entry(code: u64, tag: u32, children: bool, attributes: seq<Spec>)

  /** A default-constructed entry; its code 0 marks an unused slot of the vector. */
  const NO_ENTRY := Entry(0, 0, false, [])

  function ReadSpecs(s: Section, pos: nat): (r: Outcome<(seq<Spec>, nat)>)
    ensures r.Value? ==> pos + 2 <= r.value.1 <= |s.data|
    decreases |s.data| - pos
  {
    var (name, p) :- ReadUleb(s, pos);
    var (form, q) :- ReadUleb(s, p);
    if Wrap32(name) == 0 && Wrap32(form) == 0 then Value(([], q))
    else
      var typ :- ResolveType(Wrap32(name), FormOf(form));
      var (rest, next) :- ReadSpecs(s, q);
      Value(([Spec(Wrap32(name), FormOf(form), typ)] + rest, next))
  }

  /** One declaration; code 0 ends a table. */
  function ReadEntry(s: Section, pos: nat): (r: Outcome<(Entry, nat)>)
    ensures r.Value? ==> pos < r.value.1 <= |s.data|
    ensures r.Value? && r.value.0.code != 0 ==> pos + 5 <= r.value.1
  {
    var (code, p) :- ReadUleb(s, pos);
    if code == 0 then Value((NO_ENTRY, p))
    else
      var (tag, q) :- ReadUleb(s, p);
      var (children, r) :- ReadFixed(s, 1, q);
      var (attributes, next) :- ReadSpecs(s, r);
      Value((Entry(code, Wrap32(tag), children == 1, attributes), next))
  }

  function ReadTable(s: Section, pos: nat): (r: Outcome<seq<Entry>>)
    ensures r.Value? ==> forall i :: 0 <= i < |r.value| ==> r.value[i].code != 0
    ensures r.Value? ==> pos + 5 * |r.value| <= |s.data|
    decreases |s.data| - pos
  {
    var (entry, next) :- ReadEntry(s, pos);
    if entry.code == 0 then Value([])
    else
      var rest :- ReadTable(s, next);
      Value([entry] + rest)
  }

  function EncodeSpecs(specs: seq<Spec>): seq<byte> {
    if specs == [] then [0, 0]
    else EncodeSpec(specs[0]) + EncodeSpecs(specs[1..])
  }

  function EncodeEntry(e: Entry): seq<byte> {
    Leb128.EncodeUnsigned(e.code, 0) + Leb128.EncodeUnsigned(e.tag, 0)
    + [if e.children then 1 else 0] + EncodeSpecs(e.attributes)
  }

  function EncodeTable(es: seq<Entry>): seq<byte> {
    if es == [] then [0] else EncodeEntry(es[0]) + EncodeTable(es[1..])
  }

  ghost predicate GoodSpec(spec: Spec) {
    !spec.form.Other? && ResolveType(spec.name, spec.form) == Value(spec.typ)
  }

  ghost predicate GoodEntry(e: Entry) {
    e.code != 0 && forall i :: 0 <= i < |e.attributes| ==> GoodSpec(e.attributes[i])
  }

  function EncodeSpec(spec: Spec): seq<byte> {
    Leb128.EncodeUnsigned(spec.name, 0) + Leb128.EncodeUnsigned(CodeOf(spec.form), 0)
  }

  lemma ReadSpecsStep(s: Section, pos: nat, p: nat, q: nat, spec: Spec)
    requires GoodSpec(spec)
    requires ReadUleb(s, pos) == Value((spec.name, p))
    requires ReadUleb(s, p) == Value((CodeOf(spec.form), q))
    requires FormOf(CodeOf(spec.form)) == spec.form && CodeOf(spec.form) > 0
    ensures ReadSpecs(s, pos) == PrependTo([spec], ReadSpecs(s, q))
  {
    hide ReadUleb, FormOf, CodeOf, ResolveType;
  }

  lemma SpecRoundTrip(s: Section, spec: Spec, pos: nat)
    requires GoodSpec(spec) && At(s.data, pos, EncodeSpec(spec))
    ensures pos + |EncodeSpec(spec)| <= |s.data|
    ensures ReadSpecs(s, pos) == PrependTo([spec], ReadSpecs(s, pos + |EncodeSpec(spec)|))
  {
    hide ReadSpecs, ReadUleb, ResolveType;
    var a, b := Leb128.EncodeUnsigned(spec.name, 0), Leb128.EncodeUnsigned(CodeOf(spec.form), 0);
    AtAppend(s.data, pos, a, b);
    UlebRoundTrip(s, spec.name, 0, pos);
    UlebRoundTrip(s, CodeOf(spec.form), 0, pos + |a|);
    FormRoundTrip(spec.form);
    ReadSpecsStep(s, pos, pos + |a|, pos + |a| + |b|, spec);
  }

  lemma NoSpecs(s: Section, pos: nat)
    requires At(s.data, pos, EncodeSpecs([]))
    ensures ReadSpecs(s, pos) == Value(([], pos + 2))
  {
    hide FormOf, ResolveType, ReadUleb, At;
    assert Leb128.EncodeUnsigned(0, 0) == [0];
    assert EncodeSpecs([]) == Leb128.EncodeUnsigned(0, 0) + Leb128.EncodeUnsigned(0, 0);
    AtAppend(s.data, pos, Leb128.EncodeUnsigned(0, 0), Leb128.EncodeUnsigned(0, 0));
    UlebRoundTrip(s, 0, 0, pos);
    UlebRoundTrip(s, 0, 0, pos + 1);
  }

  lemma {:induction false} SpecsRoundTrip(s: Section, specs: seq<Spec>, pos: nat)
    requires forall i :: 0 <= i < |specs| ==> GoodSpec(specs[i])
    requires At(s.data, pos, EncodeSpecs(specs))
    ensures ReadSpecs(s, pos) == Value((specs, pos + |EncodeSpecs(specs)|))
    decreases |specs|
  {
    hide ReadSpecs, EncodeSpec, GoodSpec;
    if specs == [] {
      NoSpecs(s, pos);
    } else {
      var spec, rest := specs[0], specs[1..];
      AtAppend(s.data, pos, EncodeSpec(spec), EncodeSpecs(rest));
      SpecRoundTrip(s, spec, pos);
      SpecsRoundTrip(s, rest, pos + |EncodeSpec(spec)|);
      assert specs == [spec] + rest;
    }
  }

  lemma EntryRoundTrip(s: Section, e: Entry, pos: nat)
    requires GoodEntry(e) && At(s.data, pos, EncodeEntry(e))
    ensures ReadEntry(s, pos) == Value((e, pos + |EncodeEntry(e)|))
  {
    hide ReadSpecs, ReadUleb, GoodSpec, EncodeSpecs, ReadFixed, At;
    var a, b := Leb128.EncodeUnsigned(e.code, 0), Leb128.EncodeUnsigned(e.tag, 0);
    var c: seq<byte>, d := [if e.children then 1 else 0], EncodeSpecs(e.attributes);
    AtAppendFour(s.data, pos, a, b, c, d);
    UlebRoundTrip(s, e.code, 0, pos);
    UlebRoundTrip(s, e.tag, 0, pos + |a|);
    OneByte(s, pos + |a| + |b|, c[0]);
    SpecsRoundTrip(s, e.attributes, pos + |a| + |b| + 1);
    SmallMod(e.tag, B32);
  }

  lemma NoEntries(s: Section, pos: nat)
    requires At(s.data, pos, [0])
    ensures ReadEntry(s, pos) == Value((NO_ENTRY, pos + 1))
  {
    hide ReadUleb, ReadSpecs;
    assert Leb128.EncodeUnsigned(0, 0) == [0];
    UlebRoundTrip(s, 0, 0, pos);
  }

  lemma GoodCode(e: Entry)
    requires GoodEntry(e)
    ensures e.code != 0
  {
  }

  /** Reading an encoded table gives back its declarations, in order. */
  lemma {:induction false} TableRoundTrip(s: Section, es: seq<Entry>, pos: nat)
    requires forall i :: 0 <= i < |es| ==> GoodEntry(es[i])
    requires At(s.data, pos, EncodeTable(es))
    ensures ReadTable(s, pos) == Value(es)
    decreases |es|
  {
    hide ReadEntry, EncodeEntry, GoodEntry;
    if es == [] {
      NoEntries(s, pos);
    } else {
      GoodCode(es[0]);
      AtAppend(s.data, pos, EncodeEntry(es[0]), EncodeTable(es[1..]));
      EntryRoundTrip(s, es[0], pos);
      TableRoundTrip(s, es[1..], pos + |EncodeEntry(es[0])|);
      assert es == [es[0]] + es[1..];
    }
  }

  /** The declaration a code refers to: the last one with that code. */
  function Declared(es: seq<Entry>, code: u64): Outcome<Entry> {
    if es == [] then Throw(Format)
    else if es[|es| - 1].code == code then Value(es[|es| - 1])
    else Declared(es[..|es| - 1], code)
  }

  lemma {:induction false} DeclaredIsLast(es: seq<Entry>, code: u64)
    ensures match Declared(es, code)
            case Value(e) =>
              exists i :: 0 <= i < |es| && es[i] == e && e.code == code &&
                          forall j :: i < j < |es| ==> es[j].code != code
            case Throw(_) => forall i :: 0 <= i < |es| ==> es[i].code != code
  {
    if es != [] && es[|es| - 1].code != code {
      DeclaredIsLast(es[..|es| - 1], code);
    }
  }

  function Codes(es: seq<Entry>): set<u64> {
    set i | 0 <= i < |es| :: es[i].code
  }

  function Highest(es: seq<Entry>): u64 {
    if es == [] then 0
    else
      var last, before := es[|es| - 1].code, Highest(es[..|es| - 1]);
      if last > before then last else before
  }

  /** Whether the codes are dense enough for a vector: a comparison of 64-bit products. */
  predicate Dense(highest: u64, size: nat) {
    Wrap64(highest * 10) < Wrap64(size * 15)
  }

  /** The longest vector of declarations, of 40 bytes each, that the library can make. */
  const MAX_SLOTS: nat := 230584300921369395

  /** The table is to be kept in a vector longer than that. */
  predicate Refused(es: seq<Entry>) {
    Dense(Highest(es), |Codes(es)|) && Highest(es) + 1 > MAX_SLOTS
  }

  /** What a unit's index answers for a code. */
  function Answer(es: seq<Entry>, code: u64): Outcome<Entry> {
    if Refused(es) then Throw(TooLong) else Declared(es, code)
  }

  ghost predicate Indexes(m: map<u64, Entry>, es: seq<Entry>) {
    forall c: u64 :: Declared(es, c) == if c in m then Value(m[c]) else Throw(Format)
  }

  /** Every stored entry is under its own non-zero code, none above `highest`. */
  ghost predicate Filled(m: map<u64, Entry>, highest: u64) {
    forall c :: c in m ==> 0 < c <= highest && m[c].code == c
  }

  /** The map and the highest code after storing the declarations in order. */
  ghost predicate Tracks(m: map<u64, Entry>, es: seq<Entry>, highest: u64) {
    Indexes(m, es) && Filled(m, highest) && m.Keys == Codes(es) && highest == Highest(es)
  }

  lemma TracksNothing()
    ensures Tracks(map[], [], 0)
  {
  }

  lemma TracksSnoc(m: map<u64, Entry>, es: seq<Entry>, highest: u64, e: Entry)
    requires Tracks(m, es, highest) && e.code != 0
    ensures Tracks(m[e.code := e], es + [e], if e.code > highest then e.code else highest)
  {
    hide Indexes, Filled;
    IndexesSnoc(m, es, e);
    FilledSnoc(m, highest, e);
    CodesSnoc(es, e);
  }

  lemma CodesSnoc(es: seq<Entry>, e: Entry)
    ensures Codes(es + [e]) == Codes(es) + {e.code}
    ensures Highest(es + [e]) == if e.code > Highest(es) then e.code else Highest(es)
  {
    var all := es + [e];
    assert all[..|es|] == es && all[|es|] == e;
    forall c | c in Codes(es) + {e.code} ensures c in Codes(all) {
      if c in Codes(es) {
        var i :| 0 <= i < |es| && es[i].code == c;
        assert all[i].code == c;
      } else {
        assert all[|es|].code == c;
      }
    }
  }

  /** Two maps that answer alike are the same. */
  lemma IndexesOne(m: map<u64, Entry>, n: map<u64, Entry>, es: seq<Entry>)
    requires Indexes(m, es) && Indexes(n, es)
    ensures m == n
  {
    forall c: u64 ensures c in m <==> c in n {
      assert Declared(es, c) == if c in m then Value(m[c]) else Throw(Format);
    }
    forall c: u64 | c in m ensures m[c] == n[c] {
      assert Declared(es, c) == Value(m[c]);
    }
  }

  lemma IndexesSnoc(m: map<u64, Entry>, es: seq<Entry>, e: Entry)
    requires Indexes(m, es)
    ensures Indexes(m[e.code := e], es + [e])
  {
    assert (es + [e])[..|es|] == es;
    assert (es + [e])[|es|] == e;
  }

  lemma FilledSnoc(m: map<u64, Entry>, highest: u64, e: Entry)
    requires Filled(m, highest) && e.code != 0
    ensures Filled(m[e.code := e], if e.code > highest then e.code else highest)
  {
  }

  lemma {:induction false} ReadTableStep(s: Section, pos: nat, done: seq<Entry>)
    ensures match ReadEntry(s, pos)
            case Throw(e) => Prepend(done, ReadTable(s, pos)) == Throw(e)
            case Value((entry, next)) =>
              pos < next <= |s.data| &&
              if entry.code == 0 then Prepend(done, ReadTable(s, pos)) == Value(done)
              else Prepend(done, ReadTable(s, pos)) == Prepend(done + [entry], ReadTable(s, next))
  {
    hide ReadEntry;
    var r := ReadEntry(s, pos);
    PrependMore(done, [], Value([]));
    if r.Value? && r.value.0.code != 0 {
      PrependMore(done, [r.value.0], ReadTable(s, r.value.1));
    }
  }

  class AbbrevEntry {
    var code: u64
    var tag: u32
    var children: bool
    var attributes: seq<Spec>

    constructor ()
      ensures code == 0
    {
      code, tag, children, attributes := 0, 0, false, [];
    }

    function View(): Entry
      reads this
    {
      Entry(code, tag, children, attributes)
    }

    /** Read the declaration at the cursor; false at the end of the table. */
    method Read(cur: Cursor) returns (r: Outcome<bool>)
      modifies this, cur`pos
      ensures match ReadEntry(cur.sec, old(cur.pos))
              case Throw(e) => r == Throw(e)
              case Value((e, next)) =>
                r == Value(e.code != 0) && cur.pos == next && code == e.code &&
                (e.code != 0 ==> View() == e)
    {
      hide ReadUleb, ReadFixed, ResolveType, FormOf;
      attributes := [];
      code :- cur.Uleb128();
      if code == 0 {
        return Value(false);
      }
      var t :- cur.Uleb128();
      tag := Wrap32(t);
      var c :- cur.Fixed(1);
      children := c == 1;
      ghost var start, c0, t0, k0 := cur.pos, code, tag, children;
      PrependToNone(ReadSpecs(cur.sec, start));
      while true
        invariant code == c0 && tag == t0 && children == k0
        invariant PrependTo(attributes, ReadSpecs(cur.sec, cur.pos)) == ReadSpecs(cur.sec, start)
        decreases |cur.sec.data| - cur.pos
      {
        ghost var before := attributes;
        ghost var p := cur.pos;
        var name :- cur.Uleb128();
        var form :- cur.Uleb128();
        if Wrap32(name) == 0 && Wrap32(form) == 0 {
          break;
        }
        var typ :- ResolveType(Wrap32(name), FormOf(form));
        var spec := Spec(Wrap32(name), FormOf(form), typ);
        attributes := attributes + [spec];
        PrependToMore(before, [spec], ReadSpecs(cur.sec, cur.pos));
      }
      return Value(true);
    }
  }

  /** The vector has fewer than 1.5 slots per entry, plus one - exactly when the product
      with the highest code does not overflow. */
  lemma DenseBound(highest: u64, size: nat)
    requires size < 0x0800_0000_0000_0000 && Dense(highest, size)
    ensures 2 * (highest + 1) < 3 * size + 2 <==> highest * 10 < B64
  {
    SmallMod(size * 15, B64);
    if highest * 10 < B64 {
      SmallMod(highest * 10, B64);
    }
  }

  /** The vector's length does not wrap to zero. */
  lemma DenseAddressable(highest: u64, size: nat)
    requires size < 0x0800_0000_0000_0000 && Dense(highest, size)
    ensures highest + 1 < B64
  {
    SmallMod(size * 15, B64);
    if highest == B64 - 1 {
      DivModUnique(highest * 10, B64, 9, B64 - 10);
    }
  }

  /** One declaration is enough for the overflow. */
  lemma DenseOverflow()
    ensures Dense(1844674407370955162, 1)
  {
    assert 1844674407370955162 * 10 == 4 + 1 * B64;
    ModShift(4, 1, B64);
  }

  lemma {:induction false} CodesAtMost(es: seq<Entry>)
    ensures |Codes(es)| <= |es|
  {
    if es == [] {
      assert Codes(es) == {};
    } else {
      var before := es[..|es| - 1];
      CodesAtMost(before);
      CodesSnoc(before, es[|es| - 1]);
      assert before + [es[|es| - 1]] == es;
    }
  }

  /** A table in a section is refused exactly when its product overflows and still passes the
      test: every vector that is meant to be dense can be made, and no other. */
  lemma RefusedExactly(s: Section, pos: nat)
    requires ReadTable(s, pos).Value? && |s.data| < 0x0800_0000_0000_0000
    ensures var es := ReadTable(s, pos).value;
            Refused(es) <==> Dense(Highest(es), |Codes(es)|) && Highest(es) * 10 >= B64
  {
    hide Dense, Codes, Highest, ReadTable;
    var es := ReadTable(s, pos).value;
    FewEntries(s, pos);
    CodesAtMost(es);
    if Dense(Highest(es), |Codes(es)|) {
      DenseBound(Highest(es), |Codes(es)|);
    }
  }

  lemma FewEntries(s: Section, pos: nat)
    requires ReadTable(s, pos).Value?
    ensures 5 * |ReadTable(s, pos).value| <= |s.data|
  {
  }

  /** One declaration, of a DIE without attributes, under the code of the overflow. */
  const OVERFLOWING := Entry(1844674407370955162, 0x11, false, [])

  /** The bytes of a table with that one declaration are read, and the table is then refused. */
  lemma OneIsRefused(s: Section, pos: nat)
    requires At(s.data, pos, EncodeTable([OVERFLOWING]))
    ensures ReadTable(s, pos) == Value([OVERFLOWING]) && Refused([OVERFLOWING])
  {
    TableRoundTrip(s, [OVERFLOWING], pos);
    DenseOverflow();
    assert Codes([OVERFLOWING]) == {OVERFLOWING.code} by { CodesSnoc([], OVERFLOWING); }
    assert Highest([OVERFLOWING]) == OVERFLOWING.code by { CodesSnoc([], OVERFLOWING); }
  }

  /** A unit's abbreviation index, filled from the table on first use. */
  class Index {
    const sec: Section
    const offset: nat
    var have: bool
    var vec: seq<Entry>
    var entries: map<u64, Entry>

    constructor (sec: Section, offset: nat)
      ensures this.sec == sec && this.offset == offset && !have && Valid()
    {
      this.sec, this.offset := sec, offset;
      have, vec, entries := false, [], map[];
    }

    ghost function Table(): Outcome<seq<Entry>> {
      ReadTable(sec, offset)
    }

    /** Once filled, exactly one representation is in use, and it answers as the table does.  An
        attempt to fill the index that threw may have left entries in the map. */
    ghost predicate Valid()
      reads this
    {
      if !have then vec == [] && (entries == map[] || Table().Throw? || Indexes(entries, Table().value))
      else
        Table().Value? && !Refused(Table().value) && forall c: u64 :: Declared(Table().value, c) == Find(c)
    }

    function Find(code: u64): Outcome<Entry>
      reads this
    {
      if vec != [] then
        if code >= |vec| || vec[code].code == 0 then Throw(Format) else Value(vec[code])
      else if code in entries then Value(entries[code])
      else Throw(Format)
    }

    method ForceAbbrevs() returns (r: Outcome<()>)
      requires Valid() && |sec.data| < 0x0800_0000_0000_0000
      modifies this
      ensures Valid()
      ensures match Table()
              case Throw(e) => r == Throw(e)
              case Value(es) => if Refused(es) then r == Throw(TooLong) else r == Value(()) && have
      ensures old(have) ==> vec == old(vec) && entries == old(entries)
    {
      if have {
        return Value(());
      }
      var highest: u64 :- ReadAll();
      if Dense(highest, |entries|) {
        assert highest + 1 < B64 by { SmallEnough(highest, entries); }
        var _ :- MoveToVector(highest);
      }
      have := true;
      return Value(());
    }

    /** Store every declaration of the table in the map, under its code. */
    method ReadAll() returns (r: Outcome<u64>)
      requires Valid() && !have
      modifies this`entries
      ensures match Table()
              case Throw(e) => r == Throw(e)
              case Value(es) => r.Value? && Tracks(entries, es, r.value)
    {
      ghost var kept: map<u64, Entry> := map[];
      hide ReadEntry, ReadTable, Tracks, Prepend;
      var c := new Cursor(sec, offset);
      var entry := new AbbrevEntry();
      var highest: u64 := 0;
      ghost var es: seq<Entry> := [];
      TracksNothing();
      PrependNone(Table());
      while true
        invariant fresh(c) && fresh(entry) && c.sec == sec
        invariant Prepend(es, ReadTable(sec, c.pos)) == Table()
        invariant Table().Value? ==> Tracks(kept, es, highest)
        invariant entries == old(entries) + kept
        decreases |sec.data| - c.pos
      {
        ReadTableStep(sec, c.pos, es);
        var more :- entry.Read(c);
        if !more {
          break;
        }
        if Table().Value? {
          TracksSnoc(kept, es, highest, entry.View());
        }
        entries := entries[entry.code := entry.View()];
        kept := kept[entry.code := entry.View()];
        es := es + [entry.View()];
        if entry.code > highest {
          highest := entry.code;
        }
      }
      if Table().Value? {
        ReadAgain(old(entries), kept, es, highest);
      }
      return Value(highest);
    }

    lemma ReadAgain(before: map<u64, Entry>, kept: map<u64, Entry>, es: seq<Entry>, highest: u64)
      requires Tracks(kept, es, highest) && (before == map[] || Indexes(before, es))
      ensures before + kept == kept
    {
      hide Codes, Highest, Indexes, Filled;
      if before != map[] {
        IndexesOne(before, kept, es);
      }
    }

    lemma SmallEnough(highest: u64, m: map<u64, Entry>)
      requires |sec.data| < 0x0800_0000_0000_0000 && Table().Value? && m.Keys == Codes(Table().value)
      requires Dense(highest, |m|)
      ensures highest + 1 < B64
    {
      hide Codes, Dense, ReadTable;
      FewEntries(sec, offset);
      CodesAtMost(Table().value);
      assert |m| == |m.Keys|;
      DenseAddressable(highest, |m|);
    }

    method MoveToVector(highest: u64) returns (r: Outcome<()>)
      requires vec == [] && highest + 1 < B64 && Filled(entries, highest)
      modifies this`vec, this`entries
      ensures r == if highest + 1 > MAX_SLOTS then Throw(TooLong) else Value(())
      ensures r.Throw? ==> vec == [] && entries == old(entries)
      ensures r.Value? ==> |vec| == highest + 1 && entries == map[]
      ensures r.Value? ==>
        forall c :: 0 <= c <= highest ==> vec[c] == if c in old(entries) then old(entries)[c] else NO_ENTRY
    {
      if highest + 1 > MAX_SLOTS {
        return Throw(TooLong);
      }
      vec := seq(Wrap64(highest + 1), _ => NO_ENTRY);
      var todo := entries.Keys;
      while todo != {}
        invariant |vec| == highest + 1 && todo <= entries.Keys && entries == old(entries)
        invariant forall c :: 0 <= c <= highest ==>
          vec[c] == if c in entries && c !in todo then entries[c] else NO_ENTRY
        decreases todo
      {
        var code :| code in todo;
        vec := vec[code := entries[code]];
        todo := todo - {code};
      }
      entries := map[];
      return Value(());
    }

    method GetAbbrev(code: u64) returns (r: Outcome<Entry>)
      requires Valid() && |sec.data| < 0x0800_0000_0000_0000
      modifies this
      ensures Valid()
      ensures r == match Table() case Throw(e) => Throw(e) case Value(es) => Answer(es, code)
    {
      if !have {
        var _ :- ForceAbbrevs();
      }
      return Find(code);
    }
  }

  /** The highest code is one of the table's and none exceeds it. */
  lemma {:induction false} HighestIs(es: seq<Entry>)
    ensures forall i :: 0 <= i < |es| ==> es[i].code <= Highest(es)
    ensures es != [] ==> exists i :: 0 <= i < |es| && es[i].code == Highest(es)
  {
    if es != [] {
      var before := es[..|es| - 1];
      HighestIs(before);
      if before != [] {
        var i :| 0 <= i < |before| && before[i].code == Highest(before);
        assert es[i].code == Highest(before);
      }
      assert es[|es| - 1].code <= Highest(es);
      forall i | 0 <= i < |es| ensures es[i].code <= Highest(es) {
        assert i < |before| ==> es[i] == before[i];
      }
    }
  }

  /** Of the values of the children byte only 1 means that a DIE has children. */
  lemma ChildrenByte(s: Section, pos: nat)
    ensures var r := ReadEntry(s, pos);
            r.Value? && r.value.0.code != 0 ==>
              var code := ReadUleb(s, pos);
              code.Value? && var tag := ReadUleb(s, code.value.1);
              tag.Value? && tag.value.1 < |s.data| &&
              r.value.0.tag == tag.value.0 % 0x1_0000_0000 &&
              (r.value.0.children <==> s.data[tag.value.1] == 1)
  {
    hide ReadUleb, ReadSpecs;
    var code := ReadUleb(s, pos);
    if code.Value? {
      var tag := ReadUleb(s, code.value.1);
      if tag.Value? && tag.value.1 < |s.data| {
        assert s.data[tag.value.1..tag.value.1 + 1] == [s.data[tag.value.1]];
        OneByte(s, tag.value.1, s.data[tag.value.1]);
      }
    }
  }
}
