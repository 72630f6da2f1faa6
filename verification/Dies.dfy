/** Debugging information entries: reading one at an offset, its attributes, and the
    iterator over siblings.

    On malformed data the sibling iterator may run for ever (a sibling reference may point
    back), so its functions carry a bound on the number of steps; `Timeout` says the bound
    ran out, and `EnoughFuel` that any other answer does not depend on it. */
module Dies {
  import opened Outcomes
  import opened Words
  import opened Sections
  import opened Forms
  import opened Values
  import opened Abbrevs
  import opened Cursors
  import opened Units

  /** A DIE's place: its unit and its offset there. */
  datatype Place = Place(unit: Unit, offset: nat)

  /** A loaded file: the compilation units, the type units' DIEs by signature, and the
      string and abbreviation sections. */
  datatype Dwarf = Dwarf(
    cus: seq<Unit>, types: map<u64, Place>, strs: Section, abbrevs: Section)

  /** What a unit's abbreviation index answers. */
  function AbbrevOf(dw: Dwarf, u: Unit, code: u64): Outcome<Entry> {
    var es :- ReadTable(dw.abbrevs, u.abbrevOffset);
    Answer(es, code)
  }

  /** For a table as it is written, that is the last declaration with the code, unless the
      whole table is refused. */
  lemma AbbrevOfTable(dw: Dwarf, u: Unit, es: seq<Entry>, code: u64)
    requires forall i :: 0 <= i < |es| ==> GoodEntry(es[i])
    requires At(dw.abbrevs.data, u.abbrevOffset, EncodeTable(es))
    ensures AbbrevOf(dw, u, code) == if Refused(es) then Throw(TooLong) else Declared(es, code)
  {
    hide GoodEntry, At, ReadEntry, EncodeEntry, Refused;
    TableRoundTrip(dw.abbrevs, es, u.abbrevOffset);
  }

  /** Offsets of the attributes, and of what follows them. */
  function SkipAttributes(s: Section, specs: seq<Spec>, pos: nat): (r: Outcome<(seq<nat>, nat)>)
    ensures r.Value? ==> |r.value.0| == |specs|
  {
    if specs == [] then Value(([], pos))
    else
      var next :- SkipForm(s, specs[0].form, pos);
      var (rest, end) :- SkipAttributes(s, specs[1..], next);
      Value(([pos] + rest, end))
  }

  /** A DIE as read; `abbrev` is None for the null entry that ends a sibling list. */
  datatype Info = Info(abbrev: Option<Entry>, attrs: seq<nat>, next: nat)

  function ReadInfo(dw: Dwarf, u: Unit, off: nat): (r: Outcome<Info>)
    ensures r.Value? && r.value.abbrev.Some? ==>
      |r.value.attrs| == |r.value.abbrev.value.attributes|
  {
    var (code, p) :- ReadUleb(u.sec, off);
    if code == 0 then Value(Info(None, [], p))
    else
      var entry :- AbbrevOf(dw, u, code);
      var (attrs, next) :- SkipAttributes(u.sec, entry.attributes, p);
      Value(Info(Some(entry), attrs, next))
  }

  /** Index of the first specification with the given name. */
  function FirstNamed(specs: seq<Spec>, name: u32): (i: nat)
    ensures i <= |specs|
    ensures i < |specs| ==> specs[i].name == name
    ensures forall j :: 0 <= j < i ==> specs[j].name != name
  {
    if specs == [] || specs[0].name == name then 0 else 1 + FirstNamed(specs[1..], name)
  }

  predicate Has(i: Info, name: u32) {
    i.abbrev.Some? && FirstNamed(i.abbrev.value.attributes, name) < |i.abbrev.value.attributes|
  }

  function Attribute(u: Unit, i: Info, name: u32): Outcome<View>
    requires i.abbrev.Some? ==> |i.attrs| == |i.abbrev.value.attributes|
  {
    if !Has(i, name) then Throw(OutOfRange)
    else
      var k := FirstNamed(i.abbrev.value.attributes, name);
      var spec := i.abbrev.value.attributes[k];
      MakeValue(u.sec, spec.name, spec.form, spec.typ, i.attrs[k])
  }

  /** The unit and offset a number stored in a reference form stands for. */
  function Target(dw: Dwarf, u: Unit, form: Form, v: u64): Outcome<Place> {
    match form
    case RefAddr =>
      (match Scan(dw.cus, v)
       case None => Throw(Undefined)
       case Some(base) => Value(Place(base, v - base.offset)))
    case RefSig8 => if v in dw.types then Value(dw.types[v]) else Throw(Format)
    case _ => Value(Place(u, v))
  }

  /** `get_section_offset`. */
  function SectionOffset(p: Place): nat {
    p.unit.offset + p.offset
  }

  /** A reference within the unit keeps the unit; DW_FORM_ref_addr, in a section tiled by the
      units, leads to the unit that holds the offset, and to that very offset of the section; a
      signature leads to the DIE registered for it, or is a format error. */
  lemma ReferenceLands(dw: Dwarf, u: Unit, form: Form, v: u64, end: nat)
    requires Tiles(dw.cus, 0, end) && form in {Ref1, Ref2, Ref4, Ref8, RefUdata, RefAddr, RefSig8}
    requires form == RefAddr ==> v < end
    ensures var target := Target(dw, u, form, v);
            if form == RefSig8 then target == (if v in dw.types then Value(dw.types[v]) else Throw(Format))
            else
              target.Value? &&
              if form == RefAddr
              then SectionOffset(target.value) == v && target.value.unit in dw.cus && Holds(target.value.unit, v)
              else SectionOffset(target.value) == u.offset + v && target.value.unit == u
  {
    if form == RefAddr {
      ScanFindsHolder(dw.cus, 0, end, v);
    }
  }

  function AsReference(dw: Dwarf, u: Unit, form: Form, off: nat): Outcome<Place> {
    var v :- ReferenceOperand(u.sec, form, off);
    Target(dw, u, form, v)
  }

  /** Where `++` takes an iterator that stands at a DIE; the DIE there has been read. */
  function Next(dw: Dwarf, u: Unit, off: nat, fuel: nat): Outcome<Place>
    decreases fuel, 2
  {
    var i :- ReadInfo(dw, u, off);
    if i.abbrev == None then Value(Place(u, off))
    else
      var place :- Successor(dw, u, i, fuel);
      var _ :- ReadInfo(dw, place.unit, place.offset);
      Value(place)
  }

  /** The three ways to find the successor of a DIE. */
  function Successor(dw: Dwarf, u: Unit, i: Info, fuel: nat): Outcome<Place>
    requires i.abbrev.Some? && |i.attrs| == |i.abbrev.value.attributes|
    decreases fuel, 1
  {
    if !i.abbrev.value.children then Value(Place(u, i.next))
    else if Has(i, SIBLING) then
      var v :- Attribute(u, i, SIBLING);
      AsReference(dw, u, v.form, v.offset)
    else
      var past :- Walk(dw, u, i.next, fuel);
      Value(Place(u, past))
  }

  /** From a DIE past the null entry that ends its sibling list. */
  function Walk(dw: Dwarf, u: Unit, off: nat, fuel: nat): Outcome<nat>
    decreases fuel, 0
  {
    if fuel == 0 then Throw(Timeout)
    else
      var i :- ReadInfo(dw, u, off);
      if i.abbrev == None then Value(i.next)
      else
        var place :- Next(dw, u, off, fuel - 1);
        Walk(dw, place.unit, place.offset, fuel - 1)
  }

  /** `Next` from a DIE is its successor, once that has been read. */
  lemma NextReads(dw: Dwarf, u: Unit, off: nat, i: Info, fuel: nat)
    requires ReadInfo(dw, u, off) == Value(i)
    ensures i.abbrev == None ==> Next(dw, u, off, fuel) == Value(Place(u, off))
    ensures i.abbrev.Some? ==>
      |i.attrs| == |i.abbrev.value.attributes| &&
      match Successor(dw, u, i, fuel)
      case Throw(e) => Next(dw, u, off, fuel) == Throw(e)
      case Value(place) =>
        Next(dw, u, off, fuel) == AfterReading(ReadInfo(dw, place.unit, place.offset), place)
  {
    hide ReadInfo, Successor;
  }

  function AfterReading(read: Outcome<Info>, place: Place): Outcome<Place> {
    var _ :- read;
    Value(place)
  }

  /** An answer other than `Timeout` is the answer under every larger bound. */
  lemma {:induction false} EnoughFuel(dw: Dwarf, u: Unit, off: nat, fuel: nat, more: nat)
    requires fuel <= more
    ensures Next(dw, u, off, fuel) != Throw(Timeout) ==>
            Next(dw, u, off, more) == Next(dw, u, off, fuel)
    ensures Walk(dw, u, off, fuel) != Throw(Timeout) ==>
            Walk(dw, u, off, more) == Walk(dw, u, off, fuel)
    decreases fuel, 2
  {
    hide ReadInfo, Attribute, AsReference, Has;
    EnoughToWalk(dw, u, off, fuel, more);
    var i := ReadInfo(dw, u, off);
    if i.Value? {
      EnoughToWalk(dw, u, i.value.next, fuel, more);
    }
  }

  lemma {:induction false} EnoughToWalk(dw: Dwarf, u: Unit, off: nat, fuel: nat, more: nat)
    requires fuel <= more
    ensures Walk(dw, u, off, fuel) != Throw(Timeout) ==>
            Walk(dw, u, off, more) == Walk(dw, u, off, fuel)
    decreases fuel, 0
  {
    hide ReadInfo, Next;
    if fuel > 0 {
      EnoughFuel(dw, u, off, fuel - 1, more - 1);
      var n := Next(dw, u, off, fuel - 1);
      if n.Value? {
        EnoughToWalk(dw, n.value.unit, n.value.offset, fuel - 1, more - 1);
      }
    }
  }

  class Die {
    const dw: Dwarf
    var cu: Unit
    var abbrev: Option<Entry>
    var tag: u32
    var offset: nat
    var attrs: seq<nat>
    var next: nat

    /** A default-constructed DIE of a unit; it has no abbreviation. */
    constructor (dw: Dwarf, cu: Unit)
      ensures this.dw == dw && this.cu == cu && abbrev == None
    {
      this.dw, this.cu := dw, cu;
      abbrev, tag, offset, attrs, next := None, 0, 0, [], 0;
    }

    /** The fields are what reading at `offset` gives. */
    ghost predicate Shows()
      reads this
    {
      match ReadInfo(dw, cu, offset)
      case Throw(_) => false
      case Value(i) =>
        abbrev == i.abbrev && next == i.next &&
        (abbrev.Some? ==> attrs == i.attrs && tag == abbrev.value.tag)
    }

    /** A null entry leaves the tag and the attribute offsets of the DIE read before. */
    method Read(off: nat) returns (r: Outcome<()>)
      modifies this
      ensures cu == old(cu)
      ensures match ReadInfo(dw, cu, off)
              case Throw(e) => r == Throw(e)
              case Value(i) =>
                r == Value(()) && offset == off && Shows() &&
                (i.abbrev == None ==> tag == old(tag) && attrs == old(attrs))
    {
      hide ReadUleb, SkipForm, AbbrevOf;
      var cur := new Cursor(cu.sec, off);
      offset := off;
      var acode :- cur.Uleb128();
      if acode == 0 {
        abbrev := None;
        next := cur.pos;
        return Value(());
      }
      var entry :- AbbrevOf(dw, cu, acode);
      abbrev := Some(entry);
      tag := entry.tag;
      attrs := [];
      ghost var start := cur.pos;
      assert entry.attributes[0..] == entry.attributes;
      PrependToNone(SkipAttributes(cu.sec, entry.attributes, start));
      for i := 0 to |entry.attributes|
        invariant fresh(cur) && cur.sec == cu.sec && offset == off && cu == old(cu)
        invariant abbrev == Some(entry) && tag == entry.tag
        invariant PrependTo(attrs, SkipAttributes(cu.sec, entry.attributes[i..], cur.pos)) ==
                  SkipAttributes(cu.sec, entry.attributes, start)
      {
        AfterOne(attrs, cu.sec, entry.attributes[i..], cur.pos);
        assert entry.attributes[i..][1..] == entry.attributes[i + 1..];
        attrs := attrs + [cur.pos];
        var _ :- cur.Skip(entry.attributes[i].form);
      }
      assert attrs + [] == attrs;
      next := cur.pos;
      return Value(());
    }

    /** The info read; a null entry has no attributes, whatever the DIE held before. */
    function CurrentInfo(): Info
      reads this
    {
      Info(abbrev, if abbrev == None then [] else attrs, next)
    }

    lemma InfoShown()
      requires Shows()
      ensures ReadInfo(dw, cu, offset) == Value(CurrentInfo())
      ensures abbrev.Some? ==> |attrs| == |abbrev.value.attributes|
    {
      hide AbbrevOf, SkipAttributes, ReadUleb;
    }
  }

  ghost function AfterSkip(
    done: seq<nat>, s: Section, specs: seq<Spec>, pos: nat, skipped: Outcome<nat>
  ): Outcome<(seq<nat>, nat)>
    requires specs != []
  {
    var p :- skipped;
    PrependTo(done + [pos], SkipAttributes(s, specs[1..], p))
  }

  lemma AfterOne(done: seq<nat>, s: Section, specs: seq<Spec>, pos: nat)
    requires specs != []
    ensures PrependTo(done, SkipAttributes(s, specs, pos)) ==
            AfterSkip(done, s, specs, pos, SkipForm(s, specs[0].form, pos))
  {
    hide SkipForm;
    var n := SkipForm(s, specs[0].form, pos);
    if n.Value? {
      var rest := SkipAttributes(s, specs[1..], n.value);
      if rest.Value? {
        assert done + ([pos] + rest.value.0) == (done + [pos]) + rest.value.0;
      }
    }
  }

  /** `a != b` on iterators, in terms of the DIEs they hold. */
  predicate Differ(a: Die, b: Die)
    reads a, b
  {
    if a.abbrev != b.abbrev then true
    else if a.abbrev == None then false
    else a.next != b.next || a.cu != b.cu
  }

  class DieIterator {
    const dw: Dwarf
    const d: Die

    /** An end iterator; `Start` makes it stand at a DIE. */
    constructor (dw: Dwarf, cu: Unit)
      ensures this.dw == dw && d.dw == dw && d.cu == cu && d.abbrev == None && fresh(d)
    {
      this.dw := dw;
      this.d := new Die(dw, cu);
    }

    /** `++`. */
    method Advance(fuel: nat) returns (r: Outcome<()>)
      requires d.dw == dw && d.Shows()
      modifies d
      ensures match Next(dw, old(d.cu), old(d.offset), fuel)
              case Throw(e) => r == Throw(e)
              case Value(Place(u, off)) => r == Value(()) && d.cu == u && d.offset == off && d.Shows()
      decreases fuel, 1
    {
      hide ReadInfo, Attribute, AsReference, Has, Next, Walk;
      d.InfoShown();
      NextReads(dw, d.cu, d.offset, d.CurrentInfo(), fuel);
      if d.abbrev == None {
        return Value(());
      }
      if !d.abbrev.value.children {
        var _ :- d.Read(d.next);
      } else if Has(d.CurrentInfo(), SIBLING) {
        var v :- Attribute(d.cu, d.CurrentInfo(), SIBLING);
        var target :- AsReference(dw, d.cu, v.form, v.offset);
        d.cu := target.unit;
        var _ :- d.Read(target.offset);
      } else {
        var sub := new DieIterator(dw, d.cu);
        var past :- sub.Past(d.next, fuel);
        var _ :- d.Read(past);
      }
      return Value(());
    }

    /** Start at an offset and step to the null entry; return the offset after it. */
    method Past(off: nat, fuel: nat) returns (r: Outcome<nat>)
      requires d.dw == dw
      modifies d
      ensures r == Walk(dw, old(d.cu), off, fuel)
      decreases fuel, 0
    {
      hide ReadInfo, Next;
      var left := fuel;
      if left == 0 {
        return Throw(Timeout);
      }
      var _ :- d.Read(off);
      while d.abbrev.Some?
        invariant left > 0 && left <= fuel && d.dw == dw && d.Shows()
        invariant Walk(dw, d.cu, d.offset, left) == Walk(dw, old(d.cu), off, fuel)
        decreases left
      {
        left := left - 1;
        var _ :- Advance(left);
        if left == 0 {
          return Throw(Timeout);
        }
      }
      return Value(d.next);
    }
  }

  /** An attribute is found exactly when the declaration names it, and is otherwise out_of_range;
      the first of several with the name is taken, and a direct one is where it was read. */
  lemma AttributeIs(u: Unit, i: Info, name: u32, k: nat)
    requires i.abbrev.Some? && |i.attrs| == |i.abbrev.value.attributes|
    ensures var specs := i.abbrev.value.attributes;
            && ((forall j :: 0 <= j < |specs| ==> specs[j].name != name) ==> Attribute(u, i, name) == Throw(OutOfRange))
            && (k < |specs| && specs[k].name == name && specs[k].form != Indirect &&
                (forall j :: 0 <= j < k ==> specs[j].name != name) ==>
                  Attribute(u, i, name) == Value(View(specs[k].form, specs[k].typ, i.attrs[k])))
  {
    var specs := i.abbrev.value.attributes;
    var f := FirstNamed(specs, name);
    assert f < |specs| ==> specs[f].name == name;
    assert k < |specs| && specs[k].name == name && (forall j :: 0 <= j < k ==> specs[j].name != name) ==> f == k;
  }
}
