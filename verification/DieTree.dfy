/** DIE trees as DWARF stores them: pre-order, each DIE an abbreviation code and its
    attribute values, each sibling list ended by a null entry (sections 2.3 and 7.5 of
    DWARF Version 4).  The theorems say what the iterator does on such bytes. */
module DieTree {
  import opened Outcomes
  import opened Words
  import opened Sections
  import opened Forms
  import opened Values
  import opened Abbrevs
  import opened Units
  import opened Dies
  import Leb128

  /** A DIE with its children; codes and null entries may be padded LEB128 numbers. */
  datatype Tree = Node(code: u64, pad: nat, values: seq<Attr>, kids: Forest)

  datatype Forest = End(pad: nat) | Cons(head: Tree, tail: Forest)

  ghost function EntryOf(dw: Dwarf, u: Unit, t: Tree): Entry {
    match AbbrevOf(dw, u, t.code)
    case Value(e) => e
    case Throw(_) => NO_ENTRY
  }

  ghost function EncodeValues(s: Section, specs: seq<Spec>, values: seq<Attr>): seq<byte> {
    if specs == [] || values == [] then []
    else Forms.Encode(s, specs[0].form, values[0]) + EncodeValues(s, specs[1..], values[1..])
  }

  ghost function EncodeHead(dw: Dwarf, u: Unit, t: Tree): seq<byte> {
    Leb128.EncodeUnsigned(t.code, t.pad) + EncodeValues(u.sec, EntryOf(dw, u, t).attributes, t.values)
  }

  ghost function EncodeTree(dw: Dwarf, u: Unit, t: Tree): seq<byte> {
    EncodeHead(dw, u, t)
    + if EntryOf(dw, u, t).children then EncodeForest(dw, u, t.kids) else []
  }

  ghost function EncodeForest(dw: Dwarf, u: Unit, f: Forest): seq<byte> {
    match f
    case End(pad) => Leb128.EncodeUnsigned(0, pad)
    case Cons(t, rest) => EncodeTree(dw, u, t) + EncodeForest(dw, u, rest)
  }

  /** Bytes taken by a DIE with its descendants, and by a sibling list with its null entry. */
  ghost function TreeLength(dw: Dwarf, u: Unit, t: Tree): nat {
    |EncodeTree(dw, u, t)|
  }

  ghost function ForestLength(dw: Dwarf, u: Unit, f: Forest): nat {
    |EncodeForest(dw, u, f)|
  }

  ghost predicate WritableValues(s: Section, specs: seq<Spec>, values: seq<Attr>) {
    |specs| == |values| &&
    forall k :: 0 <= k < |specs| ==> Forms.Writable(s, specs[k].form, values[k])
  }

  /** No value is a DW_FORM_ref8, directly or through indirections: those are not skipped. */
  ghost predicate Skippable(specs: seq<Spec>, values: seq<Attr>) {
    forall k :: 0 <= k < |specs| && k < |values| ==> Innermost(specs[k].form, values[k]) != Ref8
  }

  lemma SkippableCons(specs: seq<Spec>, values: seq<Attr>)
    requires |specs| == |values| && specs != []
    ensures Skippable(specs, values) <==>
            Innermost(specs[0].form, values[0]) != Ref8 && Skippable(specs[1..], values[1..])
  {
    hide Innermost;
    if Innermost(specs[0].form, values[0]) != Ref8 && Skippable(specs[1..], values[1..]) {
      forall k | 0 <= k < |specs| ensures Innermost(specs[k].form, values[k]) != Ref8 {
        assert k > 0 ==> Innermost(specs[1..][k - 1].form, values[1..][k - 1]) != Ref8;
      }
    } else if Skippable(specs, values) {
      forall k | 0 <= k < |specs[1..]| ensures Innermost(specs[1..][k].form, values[1..][k]) != Ref8 {
        assert Innermost(specs[k + 1].form, values[k + 1]) != Ref8;
      }
    }
  }

  /** The place a reference value leads to. */
  ghost function RefersTo(dw: Dwarf, u: Unit, form: Form, a: Attr): Outcome<Place> {
    match a
    case Number(n) => if form in REFERENCES then Target(dw, u, form, n) else Throw(TypeMismatch)
    case Uleb(n, _) => if form == RefUdata then Target(dw, u, form, n) else Throw(TypeMismatch)
    case _ => Throw(TypeMismatch)
  }

  const REFERENCES: set<Form> := {Ref1, Ref2, Ref4, Ref8, RefAddr, RefSig8}

  /** If there is a sibling attribute, it leads to `end`. */
  ghost predicate SiblingCorrect(dw: Dwarf, u: Unit, specs: seq<Spec>, values: seq<Attr>, end: nat) {
    var k := FirstNamed(specs, SIBLING);
    k < |specs| && k < |values| ==>
      RefersTo(dw, u, specs[k].form, values[k]) == Value(Place(u, end))
  }

  /** The tree can be stored at an offset: its code is declared, its values fit their forms,
      and a parent's sibling attribute, if any, leads just past its last descendant. */
  ghost predicate TreeFits(dw: Dwarf, u: Unit, t: Tree, off: nat)
    decreases t
  {
    && t.code != 0 && AbbrevOf(dw, u, t.code).Value?
    && WritableValues(u.sec, EntryOf(dw, u, t).attributes, t.values)
    && (EntryOf(dw, u, t).children ==>
          SiblingCorrect(dw, u, EntryOf(dw, u, t).attributes, t.values, off + |EncodeTree(dw, u, t)|) &&
          ForestFits(dw, u, t.kids, off + |EncodeHead(dw, u, t)|))
  }

  ghost predicate ForestFits(dw: Dwarf, u: Unit, f: Forest, off: nat)
    decreases f
  {
    match f
    case End(_) => true
    case Cons(t, rest) => TreeFits(dw, u, t, off) && ForestFits(dw, u, rest, off + |EncodeTree(dw, u, t)|)
  }

  /** A sibling list stored at an offset of the unit. */
  ghost predicate Stored(dw: Dwarf, u: Unit, f: Forest, off: nat) {
    ForestFits(dw, u, f, off) && At(u.sec.data, off, EncodeForest(dw, u, f))
  }

  ghost predicate TreeStored(dw: Dwarf, u: Unit, t: Tree, off: nat) {
    TreeFits(dw, u, t, off) && At(u.sec.data, off, EncodeTree(dw, u, t))
  }

  /** Number of DIEs and null entries. */
  ghost function Size(f: Forest): (n: nat)
    ensures n > 0
  {
    match f
    case End(_) => 1
    case Cons(t, rest) => TreeSize(t) + Size(rest)
  }

  ghost function TreeSize(t: Tree): nat {
    1 + Size(t.kids)
  }

  lemma StoredTail(dw: Dwarf, u: Unit, t: Tree, rest: Forest, off: nat)
    requires Stored(dw, u, Cons(t, rest), off)
    ensures TreeStored(dw, u, t, off)
    ensures Stored(dw, u, rest, off + TreeLength(dw, u, t))
  {
    hide EncodeTree, TreeFits;
    AtAppend(u.sec.data, off, EncodeTree(dw, u, t), EncodeForest(dw, u, rest));
  }

  lemma FitsParts(dw: Dwarf, u: Unit, t: Tree, off: nat)
    requires TreeStored(dw, u, t, off)
    ensures t.code != 0 && AbbrevOf(dw, u, t.code).Value?
    ensures WritableValues(u.sec, EntryOf(dw, u, t).attributes, t.values)
    ensures |t.values| == |EntryOf(dw, u, t).attributes|
    ensures EntryOf(dw, u, t).children ==>
              SiblingCorrect(dw, u, EntryOf(dw, u, t).attributes, t.values, off + |EncodeTree(dw, u, t)|) &&
              ForestFits(dw, u, t.kids, off + |EncodeHead(dw, u, t)|)
  {
    hide AbbrevOf, EntryOf, EncodeTree, EncodeHead, ForestFits, SiblingCorrect;
  }

  lemma TreeIs(dw: Dwarf, u: Unit, t: Tree)
    ensures EncodeTree(dw, u, t) ==
            if EntryOf(dw, u, t).children then EncodeHead(dw, u, t) + EncodeForest(dw, u, t.kids)
            else EncodeHead(dw, u, t)
  {
    hide EncodeHead, EntryOf;
    assert EncodeHead(dw, u, t) + [] == EncodeHead(dw, u, t);
  }

  lemma KidsFit(dw: Dwarf, u: Unit, t: Tree, off: nat)
    requires TreeFits(dw, u, t, off) && EntryOf(dw, u, t).children
    ensures ForestFits(dw, u, t.kids, off + |EncodeHead(dw, u, t)|)
  {
    hide EncodeHead, EntryOf, EncodeTree, SiblingCorrect, WritableValues, AbbrevOf;
  }

  lemma StoredKids(dw: Dwarf, u: Unit, t: Tree, off: nat)
    requires TreeStored(dw, u, t, off)
    ensures At(u.sec.data, off, EncodeHead(dw, u, t))
    ensures EntryOf(dw, u, t).children ==>
              Stored(dw, u, t.kids, off + |EncodeHead(dw, u, t)|) &&
              |EncodeTree(dw, u, t)| == |EncodeHead(dw, u, t)| + |EncodeForest(dw, u, t.kids)|
    ensures !EntryOf(dw, u, t).children ==> |EncodeTree(dw, u, t)| == |EncodeHead(dw, u, t)|
  {
    hide EncodeHead, EntryOf, At, SiblingCorrect, WritableValues, AbbrevOf;
    TreeIs(dw, u, t);
    if EntryOf(dw, u, t).children {
      KidsFit(dw, u, t, off);
      AtAppend(u.sec.data, off, EncodeHead(dw, u, t), EncodeForest(dw, u, t.kids));
    }
  }

  /** Offsets at which the values start. */
  ghost function ValueOffsets(s: Section, specs: seq<Spec>, values: seq<Attr>, pos: nat): (r: seq<nat>)
    ensures |specs| == |values| ==> |r| == |specs|
  {
    if specs == [] || values == [] then []
    else
      [pos] + ValueOffsets(s, specs[1..], values[1..], pos + |Forms.Encode(s, specs[0].form, values[0])|)
  }

  /** Skipping the attributes records where each value starts, unless one is a DW_FORM_ref8. */
  lemma {:induction false} SkipStoredValues(s: Section, specs: seq<Spec>, values: seq<Attr>, pos: nat)
    requires WritableValues(s, specs, values) && At(s.data, pos, EncodeValues(s, specs, values))
    ensures SkipAttributes(s, specs, pos) ==
            if Skippable(specs, values)
            then Value((ValueOffsets(s, specs, values, pos), pos + |EncodeValues(s, specs, values)|))
            else Throw(Format)
    decreases |specs|
  {
    hide Forms.Encode, Forms.Writable, SkipForm, Innermost, Skippable;
    if specs == [] {
      NothingToSkip(values);
    } else {
      SkippableCons(specs, values);
      var v := Forms.Encode(s, specs[0].form, values[0]);
      AtAppend(s.data, pos, v, EncodeValues(s, specs[1..], values[1..]));
      SkipMatchesEncoding(s, specs[0].form, values[0], pos);
      SkipStoredValues(s, specs[1..], values[1..], pos + |v|);
    }
  }

  lemma NothingToSkip(values: seq<Attr>)
    ensures Skippable([], values)
  {
  }

  lemma {:induction false} ValuesAt(s: Section, specs: seq<Spec>, values: seq<Attr>, pos: nat, k: nat)
    requires |specs| == |values| && k < |specs|
    requires At(s.data, pos, EncodeValues(s, specs, values))
    ensures At(s.data, ValueOffsets(s, specs, values, pos)[k], Forms.Encode(s, specs[k].form, values[k]))
    ensures ValueOffsets(s, specs, values, pos)[k] + |Forms.Encode(s, specs[k].form, values[k])|
            <= pos + |EncodeValues(s, specs, values)|
    decreases k
  {
    hide Forms.Encode;
    var v := Forms.Encode(s, specs[0].form, values[0]);
    AtAppend(s.data, pos, v, EncodeValues(s, specs[1..], values[1..]));
    if k > 0 {
      ValuesAt(s, specs[1..], values[1..], pos + |v|, k - 1);
    }
  }

  /** The info read for a stored DIE. */
  ghost function InfoOf(dw: Dwarf, u: Unit, t: Tree, off: nat): Info {
    var e := EntryOf(dw, u, t);
    Info(Some(e),
         ValueOffsets(u.sec, e.attributes, t.values, off + |Leb128.EncodeUnsigned(t.code, t.pad)|),
         off + |EncodeHead(dw, u, t)|)
  }

  /** The values of the DIE itself can be skipped. */
  ghost predicate HeadSkips(dw: Dwarf, u: Unit, t: Tree) {
    Skippable(EntryOf(dw, u, t).attributes, t.values)
  }

  /** Reading a stored DIE finds its declaration, the offset of every value, and the offset
      of its first child or successor; with a DW_FORM_ref8 among its values it cannot be read. */
  lemma ReadStored(dw: Dwarf, u: Unit, t: Tree, off: nat)
    requires TreeStored(dw, u, t, off)
    ensures ReadInfo(dw, u, off) == if HeadSkips(dw, u, t) then Value(InfoOf(dw, u, t, off)) else Throw(Format)
  {
    hide At, ReadInfo, SkipAttributes, AbbrevOf, WritableValues, Skippable, TreeStored, EncodeValues;
    StoredKids(dw, u, t, off);
    FitsParts(dw, u, t, off);
    var e := EntryOf(dw, u, t);
    var code := Leb128.EncodeUnsigned(t.code, t.pad);
    AtAppend(u.sec.data, off, code, EncodeValues(u.sec, e.attributes, t.values));
    SkipStoredValues(u.sec, e.attributes, t.values, off + |code|);
    ReadCoded(dw, u, t.code, t.pad, e, off);
  }

  lemma ReadCoded(dw: Dwarf, u: Unit, code: u64, pad: nat, e: Entry, off: nat)
    requires At(u.sec.data, off, Leb128.EncodeUnsigned(code, pad))
    requires code != 0 && AbbrevOf(dw, u, code) == Value(e)
    ensures var r := SkipAttributes(u.sec, e.attributes, off + |Leb128.EncodeUnsigned(code, pad)|);
            ReadInfo(dw, u, off) ==
            if r.Throw? then Throw(r.error) else Value(Info(Some(e), r.value.0, r.value.1))
  {
    hide At, AbbrevOf, SkipAttributes, ReadUleb;
    UlebRoundTrip(u.sec, code, pad, off);
  }

  lemma ReadNull(dw: Dwarf, u: Unit, pad: nat, off: nat)
    requires Stored(dw, u, End(pad), off)
    ensures ReadInfo(dw, u, off) == Value(Info(None, [], off + |EncodeForest(dw, u, End(pad))|))
  {
    hide At, ReadUleb, AbbrevOf, SkipAttributes;
    UlebRoundTrip(u.sec, 0, pad, off);
  }

  /** The first entry of a list can be read. */
  ghost predicate FirstSkips(dw: Dwarf, u: Unit, f: Forest) {
    f.Cons? ==> HeadSkips(dw, u, f.head)
  }

  /** A stored sibling list begins with something readable, or with a DW_FORM_ref8. */
  lemma ReadFirst(dw: Dwarf, u: Unit, f: Forest, off: nat)
    requires Stored(dw, u, f, off)
    ensures ReadsTo(dw, u, off, FirstSkips(dw, u, f))
  {
    hide ReadInfo, EncodeForest, InfoOf, HeadSkips, Stored;
    match f
    case End(pad) => ReadNull(dw, u, pad, off);
    case Cons(t, rest) =>
      StoredTail(dw, u, t, rest, off);
      ReadStored(dw, u, t, off);
  }

  /** Reading at the offset succeeds, or throws because of a DW_FORM_ref8. */
  ghost predicate ReadsTo(dw: Dwarf, u: Unit, off: nat, ok: bool) {
    var r := ReadInfo(dw, u, off);
    if ok then r.Value? else r == Throw(Format)
  }

  // Which parts of a tree the iterator can pass: those it reads hold no DW_FORM_ref8.  What a
  // sibling attribute skips is not read.

  predicate HasSibling(e: Entry) {
    FirstNamed(e.attributes, SIBLING) < |e.attributes|
  }

  ghost predicate Passable(dw: Dwarf, u: Unit, t: Tree)
    decreases t, 1
  {
    HeadSkips(dw, u, t) && BelowPassable(dw, u, t)
  }

  ghost predicate BelowPassable(dw: Dwarf, u: Unit, t: Tree)
    decreases t, 0
  {
    EntryOf(dw, u, t).children && !HasSibling(EntryOf(dw, u, t)) ==> PassableForest(dw, u, t.kids)
  }

  ghost predicate PassableForest(dw: Dwarf, u: Unit, f: Forest)
    decreases f
  {
    match f
    case End(_) => true
    case Cons(t, rest) => Passable(dw, u, t) && PassableForest(dw, u, rest)
  }

  /** An offset, if what is read on the way there can be. */
  function Past(passable: bool, to: nat): Outcome<nat> {
    if passable then Value(to) else Throw(Format)
  }

  function Placed(u: Unit, r: Outcome<nat>): Outcome<Place> {
    var off :- r;
    Value(Place(u, off))
  }

  /** A stored reference is read back as the place it leads to. */
  lemma ReferenceRoundTrip(dw: Dwarf, u: Unit, form: Form, a: Attr, off: nat)
    requires Forms.Writable(u.sec, form, a) && At(u.sec.data, off, Forms.Encode(u.sec, form, a))
    requires RefersTo(dw, u, form, a).Value?
    ensures AsReference(dw, u, form, off) == RefersTo(dw, u, form, a)
  {
    hide ReadFixed, ReadUleb, At, EncodeFixed, Target, Leb128.EncodeUnsigned, Pow2;
    match a
    case Number(n) => FixedRoundTrip(u.sec, Width(u.sec, form), n, off);
    case Uleb(n, pad) => UlebRoundTrip(u.sec, n, pad, off);
  }

  /** Where the k-th value of a stored DIE starts. */
  lemma StoredValue(dw: Dwarf, u: Unit, t: Tree, off: nat, k: nat)
    requires TreeStored(dw, u, t, off) && k < |t.values|
    ensures |t.values| == |EntryOf(dw, u, t).attributes|
    ensures |InfoOf(dw, u, t, off).attrs| == |t.values|
    ensures var form := EntryOf(dw, u, t).attributes[k].form;
            var at := InfoOf(dw, u, t, off).attrs[k];
            Forms.Writable(u.sec, form, t.values[k]) &&
            At(u.sec.data, at, Forms.Encode(u.sec, form, t.values[k])) &&
            at + |Forms.Encode(u.sec, form, t.values[k])| <= off + |EncodeHead(dw, u, t)|
  {
    hide Forms.Encode, Forms.Writable, EntryOf, EncodeTree, TreeFits, EncodeValues, ValueOffsets, AbbrevOf;
    FitsParts(dw, u, t, off);
    StoredKids(dw, u, t, off);
    var e := EntryOf(dw, u, t);
    var code := Leb128.EncodeUnsigned(t.code, t.pad);
    AtAppend(u.sec.data, off, code, EncodeValues(u.sec, e.attributes, t.values));
    ValuesAt(u.sec, e.attributes, t.values, off + |code|, k);
  }

  /** The value object of a direct attribute. */
  lemma DirectAttribute(u: Unit, i: Info, name: u32)
    requires Has(i, name) && |i.attrs| == |i.abbrev.value.attributes|
    requires i.abbrev.value.attributes[FirstNamed(i.abbrev.value.attributes, name)].form != Indirect
    ensures var k := FirstNamed(i.abbrev.value.attributes, name);
            var spec := i.abbrev.value.attributes[k];
            Attribute(u, i, name) == Value(View(spec.form, spec.typ, i.attrs[k]))
  {
    hide FirstNamed;
  }

  lemma StoredSibling(dw: Dwarf, u: Unit, t: Tree, off: nat)
    requires TreeStored(dw, u, t, off) && EntryOf(dw, u, t).children
    ensures |t.values| == |EntryOf(dw, u, t).attributes|
    ensures SiblingCorrect(dw, u, EntryOf(dw, u, t).attributes, t.values, off + |EncodeTree(dw, u, t)|)
  {
    hide AbbrevOf, EntryOf, EncodeHead, ForestFits, SiblingCorrect, At;
  }

  lemma SiblingLeads(dw: Dwarf, u: Unit, specs: seq<Spec>, values: seq<Attr>, end: nat, k: nat)
    requires SiblingCorrect(dw, u, specs, values, end)
    requires k == FirstNamed(specs, SIBLING) < |specs| && k < |values|
    ensures RefersTo(dw, u, specs[k].form, values[k]) == Value(Place(u, end))
  {
    hide RefersTo;
  }

  lemma FollowSiblingAt(dw: Dwarf, u: Unit, t: Tree, off: nat, k: nat)
    requires TreeStored(dw, u, t, off) && EntryOf(dw, u, t).children
    requires |t.values| == |EntryOf(dw, u, t).attributes|
    requires k == FirstNamed(EntryOf(dw, u, t).attributes, SIBLING) < |t.values|
    ensures |InfoOf(dw, u, t, off).attrs| == |t.values|
    ensures var form := EntryOf(dw, u, t).attributes[k].form;
            form != Indirect &&
            AsReference(dw, u, form, InfoOf(dw, u, t, off).attrs[k]) ==
            Value(Place(u, off + |EncodeTree(dw, u, t)|))
  {
    hide Forms.Writable, Forms.Encode, AsReference, RefersTo, EncodeHead, EntryOf, TreeStored, At, WritableValues,
         InfoOf, ForestFits, EncodeForest;
    var specs := EntryOf(dw, u, t).attributes;
    StoredSibling(dw, u, t, off);
    SiblingLeads(dw, u, specs, t.values, off + |EncodeTree(dw, u, t)|, k);
    StoredValue(dw, u, t, off, k);
    var form, at := specs[k].form, InfoOf(dw, u, t, off).attrs[k];
    NotIndirect(dw, u, form, t.values[k]);
    ReferenceRoundTrip(dw, u, form, t.values[k], at);
  }

  /** Following the sibling attribute of a stored parent leads past its descendants. */
  lemma FollowSibling(dw: Dwarf, u: Unit, t: Tree, off: nat)
    requires TreeStored(dw, u, t, off) && EntryOf(dw, u, t).children
    requires Has(InfoOf(dw, u, t, off), SIBLING)
    ensures var v := Attribute(u, InfoOf(dw, u, t, off), SIBLING);
            v.Value? &&
            AsReference(dw, u, v.value.form, v.value.offset) == Value(Place(u, off + |EncodeTree(dw, u, t)|))
  {
    hide TreeStored, AsReference, EncodeTree, EntryOf, ValueOffsets, EncodeHead, Attribute, Leb128.EncodeUnsigned;
    FitsParts(dw, u, t, off);
    var i := InfoOf(dw, u, t, off);
    FollowSiblingAt(dw, u, t, off, FirstNamed(EntryOf(dw, u, t).attributes, SIBLING));
    DirectAttribute(u, i, SIBLING);
  }

  lemma NotIndirect(dw: Dwarf, u: Unit, form: Form, a: Attr)
    requires Forms.Writable(u.sec, form, a) && RefersTo(dw, u, form, a).Value?
    ensures form != Indirect
  {
  }

  /** `++` at `off` goes there, or throws. */
  ghost predicate Goes(dw: Dwarf, u: Unit, off: nat, fuel: nat, to: Outcome<nat>) {
    Next(dw, u, off, fuel) == Placed(u, to)
  }

  /** Walking from `off` ends there, or throws. */
  ghost predicate Walks(dw: Dwarf, u: Unit, off: nat, fuel: nat, to: Outcome<nat>) {
    Walk(dw, u, off, fuel) == to
  }

  lemma WalkUnread(dw: Dwarf, u: Unit, off: nat, fuel: nat)
    requires fuel > 0 && ReadInfo(dw, u, off) == Throw(Format)
    ensures Walks(dw, u, off, fuel, Throw(Format))
    ensures Goes(dw, u, off, fuel, Throw(Format))
  {
    hide ReadInfo;
  }

  lemma WalkStep(dw: Dwarf, u: Unit, off: nat, fuel: nat, i: Info, next: Outcome<nat>, to: Outcome<nat>)
    requires fuel > 0 && ReadInfo(dw, u, off) == Value(i) && i.abbrev.Some?
    requires Goes(dw, u, off, fuel - 1, next)
    requires if next.Value? then Walks(dw, u, next.value, fuel - 1, to) else to == Throw(next.error)
    ensures Walks(dw, u, off, fuel, to)
  {
    hide ReadInfo;
  }

  lemma WalkNull(dw: Dwarf, u: Unit, pad: nat, off: nat, fuel: nat)
    requires fuel > 0 && Stored(dw, u, End(pad), off)
    ensures Walks(dw, u, off, fuel, Value(off + ForestLength(dw, u, End(pad))))
  {
    hide ReadInfo, Stored;
    ReadNull(dw, u, pad, off);
  }

  lemma PassableCons(dw: Dwarf, u: Unit, t: Tree, rest: Forest)
    ensures PassableForest(dw, u, Cons(t, rest)) <==> Passable(dw, u, t) && PassableForest(dw, u, rest)
    ensures PassableForest(dw, u, rest) ==> FirstSkips(dw, u, rest)
    ensures Passable(dw, u, t) <==> HeadSkips(dw, u, t) && BelowPassable(dw, u, t)
  {
    hide HeadSkips, BelowPassable;
    if rest.Cons? && PassableForest(dw, u, rest) {
      assert Passable(dw, u, rest.head);
    }
  }

  lemma PassableEnd(dw: Dwarf, u: Unit, pad: nat)
    ensures PassableForest(dw, u, End(pad))
  {
  }

  lemma ConsLength(dw: Dwarf, u: Unit, t: Tree, rest: Forest)
    ensures ForestLength(dw, u, Cons(t, rest)) == TreeLength(dw, u, t) + ForestLength(dw, u, rest)
    ensures Size(Cons(t, rest)) == 1 + Size(t.kids) + Size(rest)
  {
  }

  /** Walking a stored sibling list ends just past its null entry, exactly when all of it can
      be passed. */
  lemma {:induction false} WalkStored(dw: Dwarf, u: Unit, f: Forest, off: nat, fuel: nat)
    requires Stored(dw, u, f, off) && fuel >= Size(f)
    ensures Walks(dw, u, off, fuel, Past(PassableForest(dw, u, f), off + ForestLength(dw, u, f)))
    decreases f, 2
  {
    hide *;
    match f
    case End(pad) =>
      WalkNull(dw, u, pad, off, fuel);
      PassableEnd(dw, u, pad);
      PastIs(off + ForestLength(dw, u, f));
    case Cons(t, rest) =>
      var next := off + TreeLength(dw, u, t);
      ConsLength(dw, u, t, rest);
      StoredTail(dw, u, t, rest, off);
      PassableCons(dw, u, t, rest);
      PastIs(next);
      PastIs(off + ForestLength(dw, u, f));
      ReadStored(dw, u, t, off);
      if HeadSkips(dw, u, t) {
        NextStored(dw, u, t, rest, off, fuel - 1);
        SomeInfo(dw, u, t, off);
        WalkStored(dw, u, rest, next, fuel - 1);
        WalkStep(dw, u, off, fuel, InfoOf(dw, u, t, off),
                 Past(Passable(dw, u, t) && FirstSkips(dw, u, rest), next),
                 Past(PassableForest(dw, u, f), off + ForestLength(dw, u, f)));
      } else {
        WalkUnread(dw, u, off, fuel);
      }
  }

  lemma PastIs(to: nat)
    ensures Past(true, to) == Value(to) && Past(false, to) == Throw(Format)
  {
  }

  lemma SomeInfo(dw: Dwarf, u: Unit, t: Tree, off: nat)
    ensures InfoOf(dw, u, t, off).abbrev == Some(EntryOf(dw, u, t))
    ensures InfoOf(dw, u, t, off).next == off + |EncodeHead(dw, u, t)|
    ensures |t.values| == |EntryOf(dw, u, t).attributes| ==>
              |InfoOf(dw, u, t, off).attrs| == |EntryOf(dw, u, t).attributes|
    ensures Has(InfoOf(dw, u, t, off), SIBLING) <==> HasSibling(EntryOf(dw, u, t))
  {
    hide EntryOf, EncodeHead;
  }

  /** What `++` reads next after the DIE read as `i`. */
  ghost predicate Precedes(dw: Dwarf, u: Unit, i: Info, fuel: nat, to: Outcome<nat>) {
    i.abbrev.Some? && |i.attrs| == |i.abbrev.value.attributes| &&
    Successor(dw, u, i, fuel) == Placed(u, to)
  }

  lemma PrecedesNext(dw: Dwarf, u: Unit, i: Info, fuel: nat, e: Entry)
    requires i.abbrev == Some(e) && |i.attrs| == |e.attributes| && !e.children
    ensures Precedes(dw, u, i, fuel, Value(i.next))
  {
  }

  lemma PrecedesSibling(dw: Dwarf, u: Unit, i: Info, fuel: nat, e: Entry, to: nat)
    requires i.abbrev == Some(e) && |i.attrs| == |e.attributes| && e.children
    requires Has(i, SIBLING) && SiblingLeadsTo(dw, u, i, to)
    ensures Precedes(dw, u, i, fuel, Value(to))
  {
    hide Has, Attribute, AsReference;
  }

  lemma PrecedesWalk(dw: Dwarf, u: Unit, i: Info, fuel: nat, e: Entry, to: Outcome<nat>)
    requires i.abbrev == Some(e) && |i.attrs| == |e.attributes| && e.children
    requires !Has(i, SIBLING) && Walks(dw, u, i.next, fuel, to)
    ensures Precedes(dw, u, i, fuel, to)
  {
    hide Has, Attribute, AsReference;
  }

  /** The sibling attribute of the DIE read as `i` refers to `to`, in the same unit. */
  ghost predicate SiblingLeadsTo(dw: Dwarf, u: Unit, i: Info, to: nat) {
    (i.abbrev.Some? ==> |i.attrs| == |i.abbrev.value.attributes|) &&
    var v := Attribute(u, i, SIBLING);
    v.Value? && AsReference(dw, u, v.value.form, v.value.offset) == Value(Place(u, to))
  }

  /** The successor of a stored DIE is just past its whole subtree - whether the DIE has no
      children, has a sibling attribute, or has its descendants walked one by one.  Only the
      walk reads them, and throws if one cannot be. */
  lemma {:induction false} SuccessorStored(dw: Dwarf, u: Unit, t: Tree, off: nat, fuel: nat)
    requires TreeStored(dw, u, t, off) && fuel >= Size(t.kids)
    ensures Precedes(dw, u, InfoOf(dw, u, t, off), fuel,
                     Past(BelowPassable(dw, u, t), off + TreeLength(dw, u, t)))
    decreases t.kids, 3
  {
    hide *;
    KidsStored(dw, u, t, off);
    SomeInfo(dw, u, t, off);
    BelowIs(dw, u, t);
    PastIs(off + TreeLength(dw, u, t));
    var i, e := InfoOf(dw, u, t, off), EntryOf(dw, u, t);
    if !e.children {
      PrecedesNext(dw, u, i, fuel, e);
    } else if Has(i, SIBLING) {
      SiblingStored(dw, u, t, off);
      PrecedesSibling(dw, u, i, fuel, e, off + TreeLength(dw, u, t));
    } else {
      WalkStored(dw, u, t.kids, i.next, fuel);
      PrecedesWalk(dw, u, i, fuel, e, Past(BelowPassable(dw, u, t), off + TreeLength(dw, u, t)));
    }
  }

  lemma BelowIs(dw: Dwarf, u: Unit, t: Tree)
    ensures BelowPassable(dw, u, t) <==>
            (EntryOf(dw, u, t).children && !HasSibling(EntryOf(dw, u, t)) ==> PassableForest(dw, u, t.kids))
  {
    hide EntryOf, HasSibling;
  }

  lemma KidsStored(dw: Dwarf, u: Unit, t: Tree, off: nat)
    requires TreeStored(dw, u, t, off)
    ensures |t.values| == |EntryOf(dw, u, t).attributes|
    ensures EntryOf(dw, u, t).children ==>
      Stored(dw, u, t.kids, off + |EncodeHead(dw, u, t)|) &&
      TreeLength(dw, u, t) == |EncodeHead(dw, u, t)| + ForestLength(dw, u, t.kids)
    ensures !EntryOf(dw, u, t).children ==> TreeLength(dw, u, t) == |EncodeHead(dw, u, t)|
  {
    hide Stored, TreeStored, EncodeHead, EntryOf;
    StoredKids(dw, u, t, off);
    ValueCount(dw, u, t, off);
  }

  lemma ValueCount(dw: Dwarf, u: Unit, t: Tree, off: nat)
    requires TreeStored(dw, u, t, off)
    ensures |t.values| == |EntryOf(dw, u, t).attributes|
    ensures WritableValues(u.sec, EntryOf(dw, u, t).attributes, t.values)
  {
    FitsParts(dw, u, t, off);
  }

  lemma SiblingStored(dw: Dwarf, u: Unit, t: Tree, off: nat)
    requires TreeStored(dw, u, t, off) && EntryOf(dw, u, t).children
    requires Has(InfoOf(dw, u, t, off), SIBLING)
    ensures SiblingLeadsTo(dw, u, InfoOf(dw, u, t, off), off + TreeLength(dw, u, t))
  {
    hide TreeStored, AsReference, Attribute, Has, InfoOf, EntryOf;
    SomeInfo(dw, u, t, off);
    ValueCount(dw, u, t, off);
    FollowSibling(dw, u, t, off);
  }

  lemma NextIsSuccessor(dw: Dwarf, u: Unit, off: nat, fuel: nat, i: Info, below: bool, first: bool, to: nat)
    requires ReadInfo(dw, u, off) == Value(i)
    requires Precedes(dw, u, i, fuel, Past(below, to)) && ReadsTo(dw, u, to, first)
    ensures Goes(dw, u, off, fuel, Past(below && first, to))
  {
    hide ReadInfo;
  }

  lemma NextUnread(dw: Dwarf, u: Unit, off: nat, fuel: nat, to: nat)
    requires ReadInfo(dw, u, off) == Throw(Format)
    ensures Goes(dw, u, off, fuel, Past(false, to))
  {
    hide ReadInfo;
  }

  /** `++` from a stored DIE goes there, exactly when what it reads on the way - the DIE, the
      descendants it walks, and the next entry - can be read. */
  lemma {:induction false} NextStored(dw: Dwarf, u: Unit, t: Tree, rest: Forest, off: nat, fuel: nat)
    requires Stored(dw, u, Cons(t, rest), off) && fuel >= Size(t.kids)
    ensures Goes(dw, u, off, fuel,
                 Past(Passable(dw, u, t) && FirstSkips(dw, u, rest), off + TreeLength(dw, u, t)))
    decreases t.kids, 4
  {
    hide *;
    var to := off + TreeLength(dw, u, t);
    StoredTail(dw, u, t, rest, off);
    PassableCons(dw, u, t, rest);
    ReadStored(dw, u, t, off);
    if HeadSkips(dw, u, t) {
      SuccessorStored(dw, u, t, off, fuel);
      ReadFirst(dw, u, rest, to);
      NextIsSuccessor(dw, u, off, fuel, InfoOf(dw, u, t, off),
                      BelowPassable(dw, u, t), FirstSkips(dw, u, rest), to);
    } else {
      NextUnread(dw, u, off, fuel, to);
    }
  }

  /** The sibling attribute is only a shortcut: where it is correct, ignoring it and walking the
      descendants reaches the same DIE - if they can all be passed, which the shortcut does not
      need. */
  lemma ShortcutAgreesWithWalk(dw: Dwarf, u: Unit, t: Tree, off: nat, fuel: nat, to: nat)
    requires TreeStored(dw, u, t, off) && EntryOf(dw, u, t).children
    requires Has(InfoOf(dw, u, t, off), SIBLING) && fuel >= Size(t.kids)
    ensures Walks(dw, u, InfoOf(dw, u, t, off).next, fuel, Value(to)) <==>
            SiblingLeadsTo(dw, u, InfoOf(dw, u, t, off), to) && PassableForest(dw, u, t.kids)
  {
    hide *;
    var i, past := InfoOf(dw, u, t, off), off + TreeLength(dw, u, t);
    KidsStored(dw, u, t, off);
    SomeInfo(dw, u, t, off);
    SiblingStored(dw, u, t, off);
    WalkStored(dw, u, t.kids, i.next, fuel);
    OnePlace(dw, u, i, fuel, PassableForest(dw, u, t.kids), past, to);
  }

  lemma OnePlace(dw: Dwarf, u: Unit, i: Info, fuel: nat, passable: bool, a: nat, b: nat)
    requires SiblingLeadsTo(dw, u, i, a) && Walks(dw, u, i.next, fuel, Past(passable, a))
    ensures SiblingLeadsTo(dw, u, i, b) <==> a == b
    ensures Walks(dw, u, i.next, fuel, Value(b)) <==> passable && a == b
  {
    hide AsReference, Attribute;
  }

  /** The places an iterator stands at, from the DIE at an offset until it holds a null
      entry, which is where it equals the end. */
  function Visited(dw: Dwarf, u: Unit, off: nat, fuel: nat): Outcome<seq<Place>>
    decreases fuel
  {
    if fuel == 0 then Throw(Timeout)
    else
      var i :- ReadInfo(dw, u, off);
      if i.abbrev == None then Value([])
      else
        var to :- Next(dw, u, off, fuel - 1);
        var rest :- Visited(dw, to.unit, to.offset, fuel - 1);
        Value([Place(u, off)] + rest)
  }

  /** Where the DIEs of a stored sibling list are. */
  ghost function Places(dw: Dwarf, u: Unit, f: Forest, off: nat): seq<Place>
    decreases f
  {
    match f
    case End(_) => []
    case Cons(t, rest) => [Place(u, off)] + Places(dw, u, rest, off + TreeLength(dw, u, t))
  }

  /** The loop goes round the places, or throws because of a DW_FORM_ref8. */
  ghost predicate Visits(dw: Dwarf, u: Unit, off: nat, fuel: nat, passable: bool, places: seq<Place>) {
    Visited(dw, u, off, fuel) == if passable then Value(places) else Throw(Format)
  }

  lemma VisitsStep(
    dw: Dwarf, u: Unit, off: nat, fuel: nat, i: Info, go: bool, to: nat, passable: bool, rest: seq<Place>)
    requires fuel > 0 && ReadInfo(dw, u, off) == Value(i) && i.abbrev.Some?
    requires Goes(dw, u, off, fuel - 1, Past(go, to)) && Visits(dw, u, to, fuel - 1, passable, rest)
    ensures Visits(dw, u, off, fuel, go && passable, [Place(u, off)] + rest)
  {
    hide ReadInfo, Next;
  }

  lemma VisitsUnread(dw: Dwarf, u: Unit, off: nat, fuel: nat, places: seq<Place>)
    requires fuel > 0 && ReadInfo(dw, u, off) == Throw(Format)
    ensures Visits(dw, u, off, fuel, false, places)
  {
    hide ReadInfo;
  }

  lemma VisitsNothing(dw: Dwarf, u: Unit, pad: nat, off: nat, fuel: nat)
    requires fuel > 0 && Stored(dw, u, End(pad), off)
    ensures Visits(dw, u, off, fuel, true, Places(dw, u, End(pad), off))
  {
    hide ReadInfo, Stored;
    ReadNull(dw, u, pad, off);
  }

  lemma PlacesCons(dw: Dwarf, u: Unit, t: Tree, rest: Forest, off: nat)
    ensures Places(dw, u, Cons(t, rest), off) == [Place(u, off)] + Places(dw, u, rest, off + TreeLength(dw, u, t))
  {
    hide TreeLength;
  }

  /** From the first child to the end, a loop visits exactly the children, in order, when all
      that it passes can be; otherwise it throws. */
  lemma {:induction false} ChildrenVisited(dw: Dwarf, u: Unit, f: Forest, off: nat, fuel: nat)
    requires Stored(dw, u, f, off) && fuel >= Size(f)
    ensures Visits(dw, u, off, fuel, PassableForest(dw, u, f), Places(dw, u, f, off))
    decreases f
  {
    hide *;
    match f
    case End(pad) =>
      PassableEnd(dw, u, pad);
      VisitsNothing(dw, u, pad, off, fuel);
    case Cons(t, rest) =>
      var to := off + TreeLength(dw, u, t);
      ConsLength(dw, u, t, rest);
      StoredTail(dw, u, t, rest, off);
      PassableCons(dw, u, t, rest);
      PlacesCons(dw, u, t, rest, off);
      ReadStored(dw, u, t, off);
      if HeadSkips(dw, u, t) {
        SomeInfo(dw, u, t, off);
        NextStored(dw, u, t, rest, off, fuel - 1);
        ChildrenVisited(dw, u, rest, to, fuel - 1);
        VisitsStep(dw, u, off, fuel, InfoOf(dw, u, t, off), Passable(dw, u, t) && FirstSkips(dw, u, rest), to,
                   PassableForest(dw, u, rest), Places(dw, u, rest, to));
      } else {
        VisitsUnread(dw, u, off, fuel, Places(dw, u, f, off));
      }
  }
}
