/** Traversal of a whole DIE tree: each DIE's attributes, each read with the reader for its
    form, then its children through the iterator.  Reading back a stored tree this way
    returns the tree. */
module DieDump {
  import opened Outcomes
  import opened Words
  import opened Sections
  import opened Forms
  import opened Values
  import opened Abbrevs
  import opened Units
  import opened Dies
  import opened DieTree
  import Leb128

  /** A DIE as its readers show it: tag, named values, children. */
  datatype Shown = Shown(tag: u32, values: seq<(u32, Datum)>, kids: seq<Shown>)

  /** Construct the value objects of all attributes. */
  function MakeViews(s: Section, specs: seq<Spec>, offs: seq<nat>): (r: Outcome<seq<View>>)
    requires |specs| == |offs|
    ensures r.Value? ==> |r.value| == |specs|
  {
    if specs == [] then Value([])
    else
      var v :- MakeValue(s, specs[0].name, specs[0].form, specs[0].typ, offs[0]);
      var rest :- MakeViews(s, specs[1..], offs[1..]);
      Value([v] + rest)
  }

  function ReadViews(s: Section, strs: Section, specs: seq<Spec>, views: seq<View>): Outcome<seq<(u32, Datum)>>
    requires |specs| == |views|
  {
    if specs == [] then Value([])
    else
      var d :- ReadDatum(s, strs, views[0].form, views[0].offset);
      var rest :- ReadViews(s, strs, specs[1..], views[1..]);
      Value([(specs[0].name, d)] + rest)
  }

  function ReadValues(dw: Dwarf, u: Unit, i: Info): Outcome<seq<(u32, Datum)>>
    requires i.abbrev.Some? && |i.attrs| == |i.abbrev.value.attributes|
  {
    var views :- MakeViews(u.sec, i.abbrev.value.attributes, i.attrs);
    ReadViews(u.sec, dw.strs, i.abbrev.value.attributes, views)
  }

  function Dump(dw: Dwarf, u: Unit, i: Info, fuel: nat): Outcome<Shown>
    requires i.abbrev.Some? && |i.attrs| == |i.abbrev.value.attributes|
    decreases fuel, 1
  {
    var values :- ReadValues(dw, u, i);
    var kids :- if i.abbrev.value.children then DumpList(dw, u, i.next, fuel) else Value([]);
    Value(Shown(i.abbrev.value.tag, values, kids))
  }

  function DumpList(dw: Dwarf, u: Unit, off: nat, fuel: nat): Outcome<seq<Shown>>
    decreases fuel, 0
  {
    if fuel == 0 then Throw(Timeout)
    else
      var i :- ReadInfo(dw, u, off);
      if i.abbrev == None then Value([])
      else
        var t :- Dump(dw, u, i, fuel - 1);
        var to :- Next(dw, u, off, fuel - 1);
        var rest :- DumpList(dw, to.unit, to.offset, fuel - 1);
        Value([t] + rest)
  }

  method DumpDie(d: Die, fuel: nat) returns (r: Outcome<Shown>)
    requires d.Shows() && d.abbrev.Some? && |d.attrs| == |d.abbrev.value.attributes|
    ensures r == Dump(d.dw, d.cu, d.CurrentInfo(), fuel)
    decreases fuel, 1
  {
    hide ReadInfo, ReadValues, Next;
    var values :- ReadValues(d.dw, d.cu, d.CurrentInfo());
    var kids: seq<Shown> := [];
    if d.abbrev.value.children {
      kids :- DumpChildren(d.dw, d.cu, d.next, fuel);
    }
    return Value(Shown(d.abbrev.value.tag, values, kids));
  }

  /** `for (auto &child : d)`, from the first child to an iterator equal to the end. */
  method DumpChildren(dw: Dwarf, cu: Unit, first: nat, fuel: nat) returns (r: Outcome<seq<Shown>>)
    ensures r == DumpList(dw, cu, first, fuel)
    decreases fuel, 0
  {
    hide ReadInfo, ReadValues, Next, Dump;
    var left := fuel;
    if left == 0 {
      return Throw(Timeout);
    }
    var it := new DieIterator(dw, cu);
    var end := new DieIterator(dw, cu);
    var _ :- it.d.Read(first);
    var kids: seq<Shown> := [];
    PrependNone(DumpList(dw, cu, first, fuel));
    while Differ(it.d, end.d)
      invariant fresh(it.d) && fresh(end.d) && it.d != end.d && end.d.abbrev == None
      invariant 0 < left <= fuel && it.d.dw == it.dw == dw && it.d.Shows()
      invariant Prepend(kids, DumpList(dw, it.d.cu, it.d.offset, left)) == DumpList(dw, cu, first, fuel)
      decreases left
    {
      left := left - 1;
      it.d.InfoShown();
      var kid :- DumpDie(it.d, left);
      ghost var place := Place(it.d.cu, it.d.offset);
      var _ :- it.Advance(left);
      PrependMore(kids, [kid], DumpList(dw, it.d.cu, it.d.offset, left));
      kids := kids + [kid];
      if left == 0 {
        return Throw(Timeout);
      }
    }
    assert kids + [] == kids;
    return Value(kids);
  }

  // What a stored tree stands for, without reading any byte.

  /** Every indirect value's inner form suits its attribute. */
  ghost function Typed(specs: seq<Spec>, values: seq<Attr>): Outcome<()>
    requires |specs| == |values|
  {
    if specs == [] then Value(())
    else
      var _ :-
        if specs[0].form == Indirect
        then ResolveType(specs[0].name, Innermost(Indirect, values[0])) else Value(Invalid);
      Typed(specs[1..], values[1..])
  }

  ghost function Denoted(strs: Section, specs: seq<Spec>, values: seq<Attr>): Outcome<seq<(u32, Datum)>>
    requires |specs| == |values|
  {
    if specs == [] then Value([])
    else
      var d :- Denotes(strs, specs[0].form, values[0]);
      var rest :- Denoted(strs, specs[1..], values[1..]);
      Value([(specs[0].name, d)] + rest)
  }

  /** The values of a DIE that has been read. */
  ghost function Meant(dw: Dwarf, u: Unit, t: Tree): Outcome<seq<(u32, Datum)>> {
    var specs := EntryOf(dw, u, t).attributes;
    if |specs| != |t.values| then Throw(Undefined)
    else
      var _ :- Typed(specs, t.values);
      Denoted(dw.strs, specs, t.values)
  }

  ghost function Meaning(dw: Dwarf, u: Unit, t: Tree): Outcome<Shown>
    decreases t
  {
    var values :- Meant(dw, u, t);
    var kids :- if EntryOf(dw, u, t).children then Meanings(dw, u, t.kids) else Value([]);
    Value(Shown(EntryOf(dw, u, t).tag, values, kids))
  }

  ghost function Meanings(dw: Dwarf, u: Unit, f: Forest): Outcome<seq<Shown>>
    decreases f
  {
    match f
    case End(_) => Value([])
    case Cons(t, rest) =>
      if !HeadSkips(dw, u, t) then Throw(Format)
      else
        var s :- Meaning(dw, u, t);
        var ss :- Meanings(dw, u, rest);
        Value([s] + ss)
  }

  lemma ReadStoredValue(s: Section, strs: Section, spec: Spec, a: Attr, pos: nat)
    requires Forms.Writable(s, spec.form, a) && At(s.data, pos, Forms.Encode(s, spec.form, a))
    requires pos + |Forms.Encode(s, spec.form, a)| < |s.data|
    ensures var made := MakeValue(s, spec.name, spec.form, spec.typ, pos);
            if spec.form == Indirect && ResolveType(spec.name, Innermost(Indirect, a)).Throw?
            then made == Throw(ResolveType(spec.name, Innermost(Indirect, a)).error)
            else made.Value? &&
                 ReadDatum(s, strs, made.value.form, made.value.offset) == Denotes(strs, spec.form, a)
  {
    if spec.form == Indirect {
      WritableShape(s, spec.form, a);
      var p := ResolveFindsPayload(s, a, pos);
    } else {
      ReadersInvertEncoding(s, strs, spec.form, a, pos);
    }
  }

  /** The readers return what was stored; one that throws does so for both. */
  lemma {:induction false} ReadStoredValues(s: Section, strs: Section, specs: seq<Spec>, values: seq<Attr>, pos: nat)
    requires WritableValues(s, specs, values) && At(s.data, pos, EncodeValues(s, specs, values))
    requires pos + |EncodeValues(s, specs, values)| < |s.data|
    ensures var views := MakeViews(s, specs, ValueOffsets(s, specs, values, pos));
            if views.Throw? then Typed(specs, values) == Throw(views.error)
            else Typed(specs, values) == Value(()) &&
                 ReadViews(s, strs, specs, views.value) == Denoted(strs, specs, values)
    decreases |specs|
  {
    hide Forms.Encode, Forms.Writable, MakeValue, ReadDatum, Denotes, ResolveType;
    if specs != [] {
      var v := Forms.Encode(s, specs[0].form, values[0]);
      AtAppend(s.data, pos, v, EncodeValues(s, specs[1..], values[1..]));
      ReadStoredValue(s, strs, specs[0], values[0], pos);
      ReadStoredValues(s, strs, specs[1..], values[1..], pos + |v|);
    }
  }

  /** Some byte of the unit follows the DIE's own values. */
  ghost predicate HeadInside(dw: Dwarf, u: Unit, t: Tree, off: nat) {
    off + |EncodeHead(dw, u, t)| < |u.sec.data|
  }

  /** In a stored list, something follows every DIE. */
  lemma BytesFollow(dw: Dwarf, u: Unit, t: Tree, rest: Forest, off: nat)
    requires Stored(dw, u, Cons(t, rest), off)
    ensures HeadInside(dw, u, t, off)
  {
    hide EncodeHead, TreeFits, EntryOf;
    StoredTail(dw, u, t, rest, off);
    SomeByte(dw, u, rest);
  }

  lemma KidsFollow(dw: Dwarf, u: Unit, t: Tree, off: nat)
    requires TreeStored(dw, u, t, off) && EntryOf(dw, u, t).children
    ensures HeadInside(dw, u, t, off)
  {
    hide EncodeHead, TreeStored, EntryOf, ForestFits;
    KidsStored(dw, u, t, off);
    SomeByte(dw, u, t.kids);
  }

  lemma SomeByte(dw: Dwarf, u: Unit, f: Forest)
    ensures ForestLength(dw, u, f) > 0
    decreases f
  {
    hide EncodeHead, EntryOf;
    match f
    case End(_) =>
    case Cons(t, rest) => SomeByte(dw, u, rest);
  }

  lemma HeadValues(dw: Dwarf, u: Unit, t: Tree, off: nat)
    requires TreeStored(dw, u, t, off)
    ensures var e := EntryOf(dw, u, t);
            var start := off + |Leb128.EncodeUnsigned(t.code, t.pad)|;
            |e.attributes| == |t.values| &&
            InfoOf(dw, u, t, off).attrs == ValueOffsets(u.sec, e.attributes, t.values, start) &&
            WritableValues(u.sec, e.attributes, t.values) &&
            At(u.sec.data, start, EncodeValues(u.sec, e.attributes, t.values)) &&
            start + |EncodeValues(u.sec, e.attributes, t.values)| == off + |EncodeHead(dw, u, t)|
  {
    hide EntryOf, TreeStored, Forms.Encode, WritableValues, Stored, EncodeForest;
    ValueCount(dw, u, t, off);
    StoredKids(dw, u, t, off);
    AtAppend(u.sec.data, off, Leb128.EncodeUnsigned(t.code, t.pad),
             EncodeValues(u.sec, EntryOf(dw, u, t).attributes, t.values));
  }

  /** The values of a stored DIE, as its readers show them. */
  ghost predicate ShowsValues(dw: Dwarf, u: Unit, i: Info, r: Outcome<seq<(u32, Datum)>>) {
    i.abbrev.Some? && |i.attrs| == |i.abbrev.value.attributes| && ReadValues(dw, u, i) == r
  }

  lemma ReadValuesStored(dw: Dwarf, u: Unit, t: Tree, off: nat)
    requires TreeStored(dw, u, t, off) && HeadInside(dw, u, t, off)
    ensures ShowsValues(dw, u, InfoOf(dw, u, t, off), Meant(dw, u, t))
  {
    hide Stored, TreeStored, EntryOf, EncodeHead, WritableValues;
    HeadValues(dw, u, t, off);
    SomeInfo(dw, u, t, off);
    ReadStoredValues(u.sec, dw.strs, EntryOf(dw, u, t).attributes, t.values,
                     off + |Leb128.EncodeUnsigned(t.code, t.pad)|);
  }

  ghost predicate Dumps(dw: Dwarf, u: Unit, i: Info, fuel: nat, r: Outcome<Shown>) {
    i.abbrev.Some? && |i.attrs| == |i.abbrev.value.attributes| && Dump(dw, u, i, fuel) == r
  }

  ghost predicate DumpsList(dw: Dwarf, u: Unit, off: nat, fuel: nat, r: Outcome<seq<Shown>>) {
    DumpList(dw, u, off, fuel) == r
  }

  lemma DumpStep(
    dw: Dwarf, u: Unit, i: Info, e: Entry, t: Tree, fuel: nat, kids: Outcome<seq<Shown>>)
    requires i.abbrev == Some(e) && e == EntryOf(dw, u, t)
    requires ShowsValues(dw, u, i, Meant(dw, u, t))
    requires e.children ==> DumpsList(dw, u, i.next, fuel, kids) && kids == Meanings(dw, u, t.kids)
    ensures Dumps(dw, u, i, fuel, Meaning(dw, u, t))
  {
    hide ReadValues, Meant, EntryOf;
  }

  lemma DumpListStep(
    dw: Dwarf, u: Unit, off: nat, fuel: nat, i: Info, pass: bool, first: bool, to: nat, t: Tree, rest: Forest)
    requires fuel > 0 && ReadInfo(dw, u, off) == Value(i) && HeadSkips(dw, u, t)
    requires Dumps(dw, u, i, fuel - 1, Meaning(dw, u, t))
    requires Goes(dw, u, off, fuel - 1, Past(pass && first, to)) && (Meaning(dw, u, t).Value? ==> pass)
    requires DumpsList(dw, u, to, fuel - 1, Meanings(dw, u, rest))
    requires !first ==> Meanings(dw, u, rest) == Throw(Format)
    ensures DumpsList(dw, u, off, fuel, Meanings(dw, u, Cons(t, rest)))
  {
    hide ReadInfo, HeadSkips;
  }

  /** Neither the dump of a list nor its meaning gets past an unreadable first entry. */
  lemma DumpListUnread(dw: Dwarf, u: Unit, off: nat, fuel: nat, f: Forest)
    requires fuel > 0 && ReadInfo(dw, u, off) == Throw(Format) && !FirstSkips(dw, u, f)
    ensures DumpsList(dw, u, off, fuel, Meanings(dw, u, f))
  {
    hide ReadInfo;
    MeansNothing(dw, u, f);
  }

  lemma MeansNothing(dw: Dwarf, u: Unit, f: Forest)
    ensures !FirstSkips(dw, u, f) ==> Meanings(dw, u, f) == Throw(Format)
    ensures f.Cons? ==> (FirstSkips(dw, u, f) <==> HeadSkips(dw, u, f.head))
  {
    hide HeadSkips;
  }

  /** Where a dump has shown a whole subtree, the iterator can pass it. */
  lemma {:induction false} MeaningPasses(dw: Dwarf, u: Unit, t: Tree)
    ensures Meaning(dw, u, t).Value? ==> BelowPassable(dw, u, t)
    decreases t
  {
    hide EntryOf, Meant, HasSibling;
    if EntryOf(dw, u, t).children {
      MeaningsPass(dw, u, t.kids);
    }
  }

  lemma {:induction false} MeaningsPass(dw: Dwarf, u: Unit, f: Forest)
    ensures Meanings(dw, u, f).Value? ==> PassableForest(dw, u, f)
    decreases f
  {
    hide Meaning, HeadSkips, BelowPassable;
    if f.Cons? {
      MeaningPasses(dw, u, f.head);
      MeaningsPass(dw, u, f.tail);
    }
  }

  lemma DumpListEnd(dw: Dwarf, u: Unit, off: nat, fuel: nat, pad: nat)
    requires fuel > 0 && Stored(dw, u, End(pad), off)
    ensures DumpsList(dw, u, off, fuel, Meanings(dw, u, End(pad)))
  {
    hide ReadInfo, Stored;
    ReadNull(dw, u, pad, off);
  }

  /** Parsing undoes printing: dumping a stored sibling list returns exactly its trees -
      tags, attribute names, values and children.  It throws only where a DIE cannot be read
      (DW_FORM_ref8) or a value is one its reader rejects (DW_FORM_indirect, or a DW_FORM_strp
      that leads to no string). */
  lemma {:induction false} DumpListStored(dw: Dwarf, u: Unit, f: Forest, off: nat, fuel: nat)
    requires Stored(dw, u, f, off) && fuel >= Size(f)
    ensures DumpsList(dw, u, off, fuel, Meanings(dw, u, f))
    decreases f
  {
    hide *;
    match f
    case End(pad) =>
      DumpListEnd(dw, u, off, fuel, pad);
    case Cons(t, rest) =>
      var to := off + TreeLength(dw, u, t);
      ConsLength(dw, u, t, rest);
      StoredTail(dw, u, t, rest, off);
      ReadStored(dw, u, t, off);
      MeansNothing(dw, u, f);
      MeansNothing(dw, u, rest);
      if HeadSkips(dw, u, t) {
        NextStored(dw, u, t, rest, off, fuel - 1);
        PassableCons(dw, u, t, rest);
        MeaningPasses(dw, u, t);
        BytesFollow(dw, u, t, rest, off);
        DumpStored(dw, u, t, off, fuel - 1);
        DumpListStored(dw, u, rest, to, fuel - 1);
        DumpListStep(dw, u, off, fuel, InfoOf(dw, u, t, off), Passable(dw, u, t), FirstSkips(dw, u, rest), to, t, rest);
      } else {
        DumpListUnread(dw, u, off, fuel, f);
      }
  }

  lemma {:induction false} DumpStored(dw: Dwarf, u: Unit, t: Tree, off: nat, fuel: nat)
    requires TreeStored(dw, u, t, off) && HeadInside(dw, u, t, off) && fuel >= Size(t.kids)
    ensures Dumps(dw, u, InfoOf(dw, u, t, off), fuel, Meaning(dw, u, t))
    decreases t
  {
    hide *;
    var i, e := InfoOf(dw, u, t, off), EntryOf(dw, u, t);
    KidsStored(dw, u, t, off);
    SomeInfo(dw, u, t, off);
    ReadValuesStored(dw, u, t, off);
    if e.children {
      DumpListStored(dw, u, t.kids, i.next, fuel);
    }
    DumpStep(dw, u, i, e, t, fuel, Meanings(dw, u, t.kids));
  }

  /** The same for a unit's root DIE, if it has children and can be read. */
  lemma DumpRootStored(dw: Dwarf, u: Unit, t: Tree, off: nat, fuel: nat)
    requires TreeStored(dw, u, t, off) && EntryOf(dw, u, t).children && fuel >= Size(t.kids)
    ensures ReadInfo(dw, u, off) == if HeadSkips(dw, u, t) then Value(InfoOf(dw, u, t, off)) else Throw(Format)
    ensures Dumps(dw, u, InfoOf(dw, u, t, off), fuel, Meaning(dw, u, t))
  {
    hide *;
    ReadStored(dw, u, t, off);
    KidsFollow(dw, u, t, off);
    DumpStored(dw, u, t, off, fuel);
  }

  // When a dump throws, and what it shows when it does not.

  /** A reader accepts the value: its form is direct, and a string it refers to can be read.
      That includes one beyond the end of the string section, which is read as empty. */
  ghost predicate Readable(strs: Section, form: Form, a: Attr) {
    form != Indirect && (form == Strp && a.Number? ==> ReadCstr(strs, a.n).Value?)
  }

  ghost predicate AllReadable(strs: Section, specs: seq<Spec>, values: seq<Attr>) {
    |specs| == |values| && forall k :: 0 <= k < |specs| ==> Readable(strs, specs[k].form, values[k])
  }

  lemma DenotesReadable(s: Section, strs: Section, form: Form, a: Attr)
    requires Forms.Writable(s, form, a)
    ensures Denotes(strs, form, a).Value? <==> Readable(strs, form, a)
  {
  }

  /** The values of a DIE are all shown, in order and under their names, exactly when each is
      readable. */
  lemma {:induction false} ValuesShown(s: Section, strs: Section, specs: seq<Spec>, values: seq<Attr>)
    requires WritableValues(s, specs, values)
    ensures var d := Denoted(strs, specs, values);
            && (d.Value? <==> AllReadable(strs, specs, values))
            && (d.Value? ==> Typed(specs, values) == Value(()) && ShownAs(strs, specs, values, d.value))
    decreases |specs|
  {
    hide Denotes, Forms.Writable, ResolveType, Readable, Innermost;
    if specs != [] {
      DenotesReadable(s, strs, specs[0].form, values[0]);
      DirectIfReadable(strs, specs[0].form, values[0]);
      ValuesShown(s, strs, specs[1..], values[1..]);
      ReadableCons(strs, specs, values);
    }
  }

  lemma DirectIfReadable(strs: Section, form: Form, a: Attr)
    ensures Readable(strs, form, a) ==> form != Indirect
  {
  }

  lemma ReadableCons(strs: Section, specs: seq<Spec>, values: seq<Attr>)
    requires |specs| == |values| && specs != []
    ensures AllReadable(strs, specs, values) <==>
            Readable(strs, specs[0].form, values[0]) && AllReadable(strs, specs[1..], values[1..])
  {
    hide Readable;
    if Readable(strs, specs[0].form, values[0]) && AllReadable(strs, specs[1..], values[1..]) {
      forall k | 0 <= k < |specs|
        ensures Readable(strs, specs[k].form, values[k])
      {
        assert k > 0 ==> Readable(strs, specs[1..][k - 1].form, values[1..][k - 1]);
      }
    } else if AllReadable(strs, specs, values) {
      forall k | 0 <= k < |specs[1..]|
        ensures Readable(strs, specs[1..][k].form, values[1..][k])
      {
        assert Readable(strs, specs[k + 1].form, values[k + 1]);
      }
    }
  }

  /** Name and datum of each attribute. */
  ghost predicate ShownAs(strs: Section, specs: seq<Spec>, values: seq<Attr>, shown: seq<(u32, Datum)>) {
    |specs| == |values| == |shown| &&
    forall k :: 0 <= k < |specs| ==>
      shown[k].0 == specs[k].name && Denotes(strs, specs[k].form, values[k]) == Value(shown[k].1)
  }

  ghost predicate ReadableTree(dw: Dwarf, u: Unit, t: Tree)
    decreases t
  {
    AllReadable(dw.strs, EntryOf(dw, u, t).attributes, t.values) &&
    (EntryOf(dw, u, t).children ==> ReadableForest(dw, u, t.kids))
  }

  /** Every DIE can be read, and every value of it. */

  ghost predicate ReadableForest(dw: Dwarf, u: Unit, f: Forest)
    decreases f
  {
    match f
    case End(_) => true
    case Cons(t, rest) => HeadSkips(dw, u, t) && ReadableTree(dw, u, t) && ReadableForest(dw, u, rest)
  }

  /** What is shown has the shape of the tree, the tags and names of its declarations, and what
      each stored value denotes. */
  ghost predicate MirrorsTree(dw: Dwarf, u: Unit, t: Tree, shown: Shown)
    decreases t
  {
    && shown.tag == EntryOf(dw, u, t).tag
    && ShownAs(dw.strs, EntryOf(dw, u, t).attributes, t.values, shown.values)
    && (if EntryOf(dw, u, t).children then Mirrors(dw, u, t.kids, shown.kids) else shown.kids == [])
  }

  ghost predicate Mirrors(dw: Dwarf, u: Unit, f: Forest, shown: seq<Shown>)
    decreases f
  {
    match f
    case End(_) => shown == []
    case Cons(t, rest) =>
      shown != [] && MirrorsTree(dw, u, t, shown[0]) && Mirrors(dw, u, rest, shown[1..])
  }

  lemma MeantMirrors(dw: Dwarf, u: Unit, t: Tree)
    requires WritableValues(u.sec, EntryOf(dw, u, t).attributes, t.values)
    ensures var specs := EntryOf(dw, u, t).attributes;
            && (Meant(dw, u, t).Value? <==> AllReadable(dw.strs, specs, t.values))
            && (Meant(dw, u, t).Value? ==> ShownAs(dw.strs, specs, t.values, Meant(dw, u, t).value))
  {
    hide EntryOf, AllReadable, ShownAs;
    ValuesShown(u.sec, dw.strs, EntryOf(dw, u, t).attributes, t.values);
  }

  lemma {:induction false} MeaningMirrors(dw: Dwarf, u: Unit, t: Tree, off: nat)
    requires TreeFits(dw, u, t, off)
    ensures Meaning(dw, u, t).Value? <==> ReadableTree(dw, u, t)
    ensures Meaning(dw, u, t).Value? ==> MirrorsTree(dw, u, t, Meaning(dw, u, t).value)
    decreases t
  {
    hide EntryOf, Meant, AllReadable, ShownAs, EncodeHead, EncodeTree, SiblingCorrect, AbbrevOf, WritableValues;
    MeantMirrors(dw, u, t);
    if EntryOf(dw, u, t).children {
      MeaningsMirror(dw, u, t.kids, off + |EncodeHead(dw, u, t)|);
    }
  }

  lemma {:induction false} MeaningsMirror(dw: Dwarf, u: Unit, f: Forest, off: nat)
    requires ForestFits(dw, u, f, off)
    ensures Meanings(dw, u, f).Value? <==> ReadableForest(dw, u, f)
    ensures Meanings(dw, u, f).Value? ==> Mirrors(dw, u, f, Meanings(dw, u, f).value)
    decreases f
  {
    hide *;
    match f
    case End(pad) => MirrorsEnd(dw, u, pad);
    case Cons(t, rest) =>
      FitsCons(dw, u, t, rest, off);
      MeaningMirrors(dw, u, t, off);
      MeaningsMirror(dw, u, rest, off + TreeLength(dw, u, t));
      MirrorsCons(dw, u, t, rest);
  }

  lemma MirrorsEnd(dw: Dwarf, u: Unit, pad: nat)
    ensures Meanings(dw, u, End(pad)) == Value([])
    ensures ReadableForest(dw, u, End(pad)) && Mirrors(dw, u, End(pad), [])
  {
  }

  lemma FitsCons(dw: Dwarf, u: Unit, t: Tree, rest: Forest, off: nat)
    requires ForestFits(dw, u, Cons(t, rest), off)
    ensures TreeFits(dw, u, t, off) && ForestFits(dw, u, rest, off + TreeLength(dw, u, t))
  {
    hide EncodeTree, TreeFits;
  }

  lemma MirrorsCons(dw: Dwarf, u: Unit, t: Tree, rest: Forest)
    ensures var first, others, all := Meaning(dw, u, t), Meanings(dw, u, rest), Meanings(dw, u, Cons(t, rest));
            && (all.Value? <==> HeadSkips(dw, u, t) && first.Value? && others.Value?)
            && (ReadableForest(dw, u, Cons(t, rest)) <==>
                  HeadSkips(dw, u, t) && ReadableTree(dw, u, t) && ReadableForest(dw, u, rest))
            && (all.Value? && MirrorsTree(dw, u, t, first.value) && Mirrors(dw, u, rest, others.value) ==>
                  Mirrors(dw, u, Cons(t, rest), all.value))
  {
    hide Meaning, ReadableTree, MirrorsTree, HeadSkips;
    var first, others := Meaning(dw, u, t), Meanings(dw, u, rest);
    if first.Value? && others.Value? {
      assert ([first.value] + others.value)[1..] == others.value;
    }
  }

  lemma StoredFits(dw: Dwarf, u: Unit, f: Forest, off: nat)
    requires Stored(dw, u, f, off)
    ensures ForestFits(dw, u, f, off)
  {
  }

  /** Dumping a stored forest returns exactly when every DIE and value in it is readable - no
      value is a DW_FORM_ref8 or indirect, and every string referred to is there - and then it
      shows the forest. */
  lemma DumpShowsForest(dw: Dwarf, u: Unit, f: Forest, off: nat, fuel: nat)
    requires Stored(dw, u, f, off) && fuel >= Size(f)
    ensures DumpList(dw, u, off, fuel).Value? <==> ReadableForest(dw, u, f)
    ensures DumpList(dw, u, off, fuel).Value? ==> Mirrors(dw, u, f, DumpList(dw, u, off, fuel).value)
  {
    hide ReadableForest, Mirrors, Meanings, Stored, ForestFits, ReadInfo, Next, Dump;
    StoredFits(dw, u, f, off);
    DumpListStored(dw, u, f, off, fuel);
    MeaningsMirror(dw, u, f, off);
  }
}
