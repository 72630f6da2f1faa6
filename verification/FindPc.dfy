/** The search for the innermost function containing an address, over the DIE tree. */
module FindPc {
  import opened Outcomes
  import opened Words
  import opened Abbrevs
  import opened Units
  import opened Dies
  import opened DieTree

  const SUBPROGRAM: u32 := 0x2e
  const INLINED_SUBROUTINE: u32 := 0x1d

  predicate IsFunction(tag: u32) {
    tag == SUBPROGRAM || tag == INLINED_SUBROUTINE
  }

  /** Whether the ranges of the DIE at a place contain the address, or what computing or
      reading them throws.  Ranges themselves are not part of this module. */
  type Ranges = Place -> Outcome<bool>

  /** Two exceptions mean that the DIE has no usable range; they are swallowed. */
  function Hit(answer: Outcome<bool>): Outcome<bool> {
    match answer
    case Throw(OutOfRange) => Value(false)
    case Throw(TypeMismatch) => Value(false)
    case _ => answer
  }

  /** The result of a search: found or not, and the DIEs pushed. */
  datatype Found = Found(found: bool, pushed: seq<Place>)

  /** After the children: push a function DIE that encloses a hit or is one itself. */
  function Enclose(tag: u32, inner: Found, self: Place, ranges: Ranges): Outcome<Found> {
    if !IsFunction(tag) then Value(inner)
    else if inner.found then Value(Found(true, inner.pushed + [self]))
    else
      var hit :- Hit(ranges(self));
      Value(if hit then Found(true, inner.pushed + [self]) else inner)
  }

  function Search(dw: Dwarf, u: Unit, off: nat, i: Info, ranges: Ranges, fuel: nat): Outcome<Found>
    requires i.abbrev.Some?
    decreases fuel, 1
  {
    var inner :-
      if i.abbrev.value.children then SearchList(dw, u, i.next, ranges, fuel)
      else Value(Found(false, []));
    Enclose(i.abbrev.value.tag, inner, Place(u, off), ranges)
  }

  /** Search the DIEs of a sibling list until one finds the address. */
  function SearchList(dw: Dwarf, u: Unit, off: nat, ranges: Ranges, fuel: nat): Outcome<Found>
    decreases fuel, 0
  {
    if fuel == 0 then Throw(Timeout)
    else
      var i :- ReadInfo(dw, u, off);
      if i.abbrev == None then Value(Found(false, []))
      else
        var r :- Search(dw, u, off, i, ranges, fuel - 1);
        if r.found then Value(r)
        else
          var to :- Next(dw, u, off, fuel - 1);
          var rest :- SearchList(dw, to.unit, to.offset, ranges, fuel - 1);
          Value(Found(rest.found, r.pushed + rest.pushed))
  }

  class Stack {
    var items: seq<Place>

    constructor ()
      ensures items == []
    {
      items := [];
    }
  }

  /** Push the enclosing functions of the address, innermost first, onto the stack. */
  method Find(d: Die, ranges: Ranges, stack: Stack, fuel: nat) returns (r: Outcome<bool>)
    requires d.Shows() && d.abbrev.Some?
    modifies stack
    ensures match Search(d.dw, d.cu, d.offset, d.CurrentInfo(), ranges, fuel)
            case Throw(e) => r == Throw(e)
            case Value(f) => r == Value(f.found) && stack.items == old(stack.items) + f.pushed
    decreases fuel, 1
  {
    hide ReadInfo, Next;
    var found := false;
    assert stack.items + [] == stack.items;
    if d.abbrev.value.children {
      found :- FindInChildren(d.dw, d.cu, d.next, ranges, stack, fuel);
    }
    if IsFunction(d.tag) {
      if !found {
        match ranges(Place(d.cu, d.offset)) {
          case Value(contains) => found := contains;
          case Throw(OutOfRange) =>
          case Throw(TypeMismatch) =>
          case Throw(e) => return Throw(e);
        }
      }
      if found {
        stack.items := stack.items + [Place(d.cu, d.offset)];
      }
    }
    return Value(found);
  }

  method FindInChildren(dw: Dwarf, cu: Unit, first: nat, ranges: Ranges, stack: Stack, fuel: nat)
    returns (r: Outcome<bool>)
    modifies stack
    ensures match SearchList(dw, cu, first, ranges, fuel)
            case Throw(e) => r == Throw(e)
            case Value(f) => r == Value(f.found) && stack.items == old(stack.items) + f.pushed
    decreases fuel, 0
  {
    hide ReadInfo, Next, Search;
    var left := fuel;
    if left == 0 {
      return Throw(Timeout);
    }
    var it := new DieIterator(dw, cu);
    var end := new DieIterator(dw, cu);
    var _ :- it.d.Read(first);
    ghost var pushed: seq<Place> := [];
    OntoNothing(SearchList(dw, cu, first, ranges, fuel));
    while Differ(it.d, end.d)
      invariant fresh(it.d) && fresh(end.d) && it.d != end.d && end.d.abbrev == None
      invariant 0 < left <= fuel && it.d.dw == it.dw == dw && it.d.Shows()
      invariant stack.items == old(stack.items) + pushed
      invariant Onto(pushed, SearchList(dw, it.d.cu, it.d.offset, ranges, left)) ==
                SearchList(dw, cu, first, ranges, fuel)
      decreases left
    {
      left := left - 1;
      it.d.InfoShown();
      var found :- Find(it.d, ranges, stack, left);
      ghost var more := Search(dw, it.d.cu, it.d.offset, it.d.CurrentInfo(), ranges, left).value.pushed;
      assert old(stack.items) + pushed + more == old(stack.items) + (pushed + more);
      if found {
        return Value(true);
      }
      var _ :- it.Advance(left);
      OntoMore(pushed, more, SearchList(dw, it.d.cu, it.d.offset, ranges, left));
      pushed := pushed + more;
      if left == 0 {
        return Throw(Timeout);
      }
    }
    assert pushed + [] == pushed;
    return Value(false);
  }

  ghost function Onto(pushed: seq<Place>, rest: Outcome<Found>): Outcome<Found> {
    match rest
    case Throw(e) => Throw(e)
    case Value(f) => Value(Found(f.found, pushed + f.pushed))
  }

  lemma OntoNothing(rest: Outcome<Found>)
    ensures Onto([], rest) == rest
  {
    if rest.Value? {
      assert [] + rest.value.pushed == rest.value.pushed;
    }
  }

  lemma OntoMore(a: seq<Place>, b: seq<Place>, rest: Outcome<Found>)
    ensures Onto(a + b, rest) == Onto(a, Onto(b, rest))
  {
    if rest.Value? {
      assert (a + b) + rest.value.pushed == a + (b + rest.value.pushed);
    }
  }

  // The reference definition: the function DIEs of a stored tree in post-order, each with
  // its function-tagged ancestors up to the tree's root, innermost first.  A DIE that cannot
  // be read, because of a DW_FORM_ref8, stands in this list as an empty chain.

  ghost function Chains(dw: Dwarf, u: Unit, t: Tree, off: nat, above: seq<Place>): seq<seq<Place>>
    decreases t
  {
    var e := EntryOf(dw, u, t);
    var chain := Chain(e.tag, Place(u, off), above);
    (if e.children then ListChains(dw, u, t.kids, off + |EncodeHead(dw, u, t)|, chain) else [])
    + if IsFunction(e.tag) then [chain] else []
  }

  ghost function Chain(tag: u32, self: Place, above: seq<Place>): seq<Place> {
    if IsFunction(tag) then [self] + above else above
  }

  ghost function ListChains(dw: Dwarf, u: Unit, f: Forest, off: nat, above: seq<Place>): seq<seq<Place>>
    decreases f
  {
    match f
    case End(_) => []
    case Cons(t, rest) =>
      (if HeadSkips(dw, u, t) then Chains(dw, u, t, off, above) else [[]])
      + ListChains(dw, u, rest, off + TreeLength(dw, u, t), above)
  }

  /** The first chain whose DIE is hit, unless reading or asking an earlier one throws. */
  ghost function FirstHit(chains: seq<seq<Place>>, ranges: Ranges): Outcome<Option<seq<Place>>> {
    if chains == [] then Value(None)
    else if chains[0] == [] then Throw(Format)
    else
      var hit :- Hit(ranges(chains[0][0]));
      if hit then Value(Some(chains[0])) else FirstHit(chains[1..], ranges)
  }

  /** What the search must return: everything of the first chain but the part above. */
  ghost function Expected(hit: Outcome<Option<seq<Place>>>, above: seq<Place>): Outcome<Found> {
    match hit
    case Throw(e) => Throw(e)
    case Value(None) => Value(Found(false, []))
    case Value(Some(chain)) =>
      if |chain| < |above| then Throw(Undefined) else Value(Found(true, chain[..|chain| - |above|]))
  }

  // The search on a tree itself, and on its stored form.

  ghost function TreeSearch(dw: Dwarf, u: Unit, t: Tree, off: nat, ranges: Ranges): Outcome<Found>
    decreases t, 1
  {
    Around(EntryOf(dw, u, t).tag, Inner(dw, u, t, off, ranges), Place(u, off), ranges)
  }

  /** What is found below a DIE. */
  ghost function Inner(dw: Dwarf, u: Unit, t: Tree, off: nat, ranges: Ranges): Outcome<Found>
    decreases t, 0
  {
    if EntryOf(dw, u, t).children
    then ListSearch(dw, u, t.kids, off + |EncodeHead(dw, u, t)|, ranges)
    else Value(Found(false, []))
  }

  ghost function Around(tag: u32, inner: Outcome<Found>, self: Place, ranges: Ranges): Outcome<Found> {
    var below :- inner;
    Enclose(tag, below, self, ranges)
  }

  ghost function ListSearch(dw: Dwarf, u: Unit, f: Forest, off: nat, ranges: Ranges): Outcome<Found>
    decreases f, 2
  {
    match f
    case End(_) => Value(Found(false, []))
    case Cons(t, rest) =>
      if !HeadSkips(dw, u, t) then Throw(Format)
      else
        Then(TreeSearch(dw, u, t, off, ranges),
             ListSearch(dw, u, rest, off + TreeLength(dw, u, t), ranges))
  }

  /** A search, and another if it finds nothing. */
  ghost function Then(first: Outcome<Found>, second: Outcome<Found>): Outcome<Found> {
    var r :- first;
    if r.found then Value(r)
    else
      var more :- second;
      Value(Found(more.found, r.pushed + more.pushed))
  }

  ghost predicate Searches(
    dw: Dwarf, u: Unit, off: nat, i: Info, ranges: Ranges, fuel: nat, r: Outcome<Found>)
  {
    i.abbrev.Some? && Search(dw, u, off, i, ranges, fuel) == r
  }

  ghost predicate SearchesList(
    dw: Dwarf, u: Unit, off: nat, ranges: Ranges, fuel: nat, r: Outcome<Found>)
  {
    SearchList(dw, u, off, ranges, fuel) == r
  }

  lemma SearchStep(
    dw: Dwarf, u: Unit, off: nat, i: Info, e: Entry, ranges: Ranges, fuel: nat, inner: Outcome<Found>)
    requires i.abbrev == Some(e)
    requires if e.children then SearchesList(dw, u, i.next, ranges, fuel, inner)
             else inner == Value(Found(false, []))
    ensures Searches(dw, u, off, i, ranges, fuel, Around(e.tag, inner, Place(u, off), ranges))
  {
    hide Enclose;
  }

  lemma TreeSearchIs(dw: Dwarf, u: Unit, t: Tree, off: nat, ranges: Ranges)
    ensures TreeSearch(dw, u, t, off, ranges) ==
            Around(EntryOf(dw, u, t).tag, Inner(dw, u, t, off, ranges), Place(u, off), ranges)
    ensures EntryOf(dw, u, t).children ==>
            Inner(dw, u, t, off, ranges) == ListSearch(dw, u, t.kids, off + |EncodeHead(dw, u, t)|, ranges)
    ensures !EntryOf(dw, u, t).children ==> Inner(dw, u, t, off, ranges) == Value(Found(false, []))
  {
    hide EntryOf, EncodeHead, Around;
  }

  lemma SearchListStep(
    dw: Dwarf, u: Unit, off: nat, pass: bool, first: bool, to: nat, i: Info, ranges: Ranges, fuel: nat,
    r: Outcome<Found>, more: Outcome<Found>)
    requires fuel > 0 && ReadInfo(dw, u, off) == Value(i)
    requires Searches(dw, u, off, i, ranges, fuel - 1, r)
    requires Goes(dw, u, off, fuel - 1, Past(pass && first, to)) && (Nothing(r) ==> pass)
    requires SearchesList(dw, u, to, ranges, fuel - 1, more) && (!first ==> more == Throw(Format))
    ensures SearchesList(dw, u, off, ranges, fuel, Then(r, more))
  {
    hide ReadInfo;
  }

  lemma SearchListUnread(dw: Dwarf, u: Unit, off: nat, ranges: Ranges, fuel: nat)
    requires fuel > 0 && ReadInfo(dw, u, off) == Throw(Format)
    ensures SearchesList(dw, u, off, ranges, fuel, Throw(Format))
  {
    hide ReadInfo;
  }

  /** The search ended without a hit. */
  ghost predicate Nothing(r: Outcome<Found>) {
    r.Value? && !r.value.found
  }

  /** What a search has gone through in vain, the iterator can pass. */
  lemma {:induction false} NothingPasses(dw: Dwarf, u: Unit, t: Tree, off: nat, ranges: Ranges)
    ensures Nothing(TreeSearch(dw, u, t, off, ranges)) ==> BelowPassable(dw, u, t)
    decreases t
  {
    hide *;
    TreeSearchIs(dw, u, t, off, ranges);
    NothingAround(EntryOf(dw, u, t).tag, Inner(dw, u, t, off, ranges), Place(u, off), ranges);
    BelowIs(dw, u, t);
    if EntryOf(dw, u, t).children {
      NothingInList(dw, u, t.kids, off + |EncodeHead(dw, u, t)|, ranges);
    }
  }

  lemma NothingAround(tag: u32, inner: Outcome<Found>, self: Place, ranges: Ranges)
    ensures Nothing(Around(tag, inner, self, ranges)) ==> Nothing(inner)
  {
  }

  lemma {:induction false} NothingInList(dw: Dwarf, u: Unit, f: Forest, off: nat, ranges: Ranges)
    ensures Nothing(ListSearch(dw, u, f, off, ranges)) ==> PassableForest(dw, u, f)
    decreases f
  {
    hide TreeSearch, HeadSkips, BelowPassable, TreeLength;
    if f.Cons? {
      NothingPasses(dw, u, f.head, off, ranges);
      NothingInList(dw, u, f.tail, off + TreeLength(dw, u, f.head), ranges);
    }
  }

  lemma ListSearchCons(dw: Dwarf, u: Unit, t: Tree, rest: Forest, off: nat, ranges: Ranges)
    ensures ListSearch(dw, u, Cons(t, rest), off, ranges) ==
            if !HeadSkips(dw, u, t) then Throw(Format)
            else Then(TreeSearch(dw, u, t, off, ranges),
                      ListSearch(dw, u, rest, off + TreeLength(dw, u, t), ranges))
    ensures !FirstSkips(dw, u, rest) ==> ListSearch(dw, u, rest, off + TreeLength(dw, u, t), ranges) == Throw(Format)
  {
    hide TreeLength, Then, TreeSearch, HeadSkips;
  }

  lemma ListChainsCons(dw: Dwarf, u: Unit, t: Tree, rest: Forest, off: nat, above: seq<Place>)
    ensures ListChains(dw, u, Cons(t, rest), off, above) ==
            (if HeadSkips(dw, u, t) then Chains(dw, u, t, off, above) else [[]])
            + ListChains(dw, u, rest, off + TreeLength(dw, u, t), above)
  {
    hide TreeLength, EntryOf, HeadSkips;
  }

  lemma SearchListEnd(dw: Dwarf, u: Unit, pad: nat, off: nat, ranges: Ranges, fuel: nat)
    requires fuel > 0 && Stored(dw, u, End(pad), off)
    ensures SearchesList(dw, u, off, ranges, fuel, ListSearch(dw, u, End(pad), off, ranges))
  {
    hide ReadInfo, Stored;
    ReadNull(dw, u, pad, off);
  }

  lemma {:induction false} SearchListStored(
    dw: Dwarf, u: Unit, f: Forest, off: nat, ranges: Ranges, fuel: nat)
    requires Stored(dw, u, f, off) && fuel >= Size(f)
    ensures SearchesList(dw, u, off, ranges, fuel, ListSearch(dw, u, f, off, ranges))
    decreases f
  {
    hide *;
    match f
    case End(pad) =>
      SearchListEnd(dw, u, pad, off, ranges, fuel);
    case Cons(t, rest) =>
      var to := off + TreeLength(dw, u, t);
      ConsLength(dw, u, t, rest);
      StoredTail(dw, u, t, rest, off);
      ReadStored(dw, u, t, off);
      ListSearchCons(dw, u, t, rest, off, ranges);
      if HeadSkips(dw, u, t) {
        NextStored(dw, u, t, rest, off, fuel - 1);
        PassableCons(dw, u, t, rest);
        NothingPasses(dw, u, t, off, ranges);
        SearchStored(dw, u, t, off, ranges, fuel - 1);
        SearchListStored(dw, u, rest, to, ranges, fuel - 1);
        SearchListStep(dw, u, off, Passable(dw, u, t), FirstSkips(dw, u, rest), to, InfoOf(dw, u, t, off),
                       ranges, fuel, TreeSearch(dw, u, t, off, ranges), ListSearch(dw, u, rest, to, ranges));
      } else {
        SearchListUnread(dw, u, off, ranges, fuel);
      }
  }

  lemma {:induction false} SearchStored(dw: Dwarf, u: Unit, t: Tree, off: nat, ranges: Ranges, fuel: nat)
    requires TreeStored(dw, u, t, off) && fuel >= Size(t.kids)
    ensures Searches(dw, u, off, InfoOf(dw, u, t, off), ranges, fuel, TreeSearch(dw, u, t, off, ranges))
    decreases t
  {
    hide *;
    var i := InfoOf(dw, u, t, off);
    KidsStored(dw, u, t, off);
    SomeInfo(dw, u, t, off);
    if EntryOf(dw, u, t).children {
      SearchListStored(dw, u, t.kids, i.next, ranges, fuel);
    }
    TreeSearchIs(dw, u, t, off, ranges);
    SearchStep(dw, u, off, i, EntryOf(dw, u, t), ranges, fuel, Inner(dw, u, t, off, ranges));
  }

  /** Each chain, but the empty ones, runs from a DIE up to, and through, what is above the tree. */
  ghost predicate Over(chains: seq<seq<Place>>, above: seq<Place>) {
    forall k :: 0 <= k < |chains| && chains[k] != [] ==>
      |chains[k]| > |above| && chains[k][|chains[k]| - |above|..] == above
  }

  lemma OverWeaken(chains: seq<seq<Place>>, tag: u32, self: Place, above: seq<Place>)
    requires Over(chains, Chain(tag, self, above))
    ensures Over(chains, above)
  {
    if IsFunction(tag) {
      forall k | 0 <= k < |chains| && chains[k] != []
        ensures |chains[k]| > |above| && chains[k][|chains[k]| - |above|..] == above
      {
        var c := chains[k];
        assert c[|c| - |above|..] == c[|c| - |above| - 1..][1..];
        assert ([self] + above)[1..] == above;
      }
    }
  }

  lemma OverOwn(tag: u32, self: Place, above: seq<Place>)
    ensures Over(if IsFunction(tag) then [Chain(tag, self, above)] else [], above)
  {
    assert ([self] + above)[1..] == above;
  }

  /** The chains of a tree: those of its children's list, then its own. */
  ghost function Below(dw: Dwarf, u: Unit, t: Tree, off: nat, above: seq<Place>): seq<seq<Place>> {
    var e := EntryOf(dw, u, t);
    if e.children
    then ListChains(dw, u, t.kids, off + |EncodeHead(dw, u, t)|, Chain(e.tag, Place(u, off), above))
    else []
  }

  ghost function Own(dw: Dwarf, u: Unit, t: Tree, off: nat, above: seq<Place>): seq<seq<Place>> {
    var tag := EntryOf(dw, u, t).tag;
    if IsFunction(tag) then [Chain(tag, Place(u, off), above)] else []
  }

  lemma ChainsParts(dw: Dwarf, u: Unit, t: Tree, off: nat, above: seq<Place>)
    ensures Chains(dw, u, t, off, above) == Below(dw, u, t, off, above) + Own(dw, u, t, off, above)
  {
    hide EntryOf, EncodeHead, Chain;
  }

  lemma {:induction false} BelowOver(dw: Dwarf, u: Unit, t: Tree, off: nat, above: seq<Place>)
    ensures Over(Below(dw, u, t, off, above), Chain(EntryOf(dw, u, t).tag, Place(u, off), above))
    decreases t, 0
  {
    hide EntryOf, EncodeHead, Chain;
    if EntryOf(dw, u, t).children {
      ListChainsOver(dw, u, t.kids, off + |EncodeHead(dw, u, t)|, Chain(EntryOf(dw, u, t).tag, Place(u, off), above));
    }
  }

  lemma {:induction false} ChainsOver(dw: Dwarf, u: Unit, t: Tree, off: nat, above: seq<Place>)
    ensures Over(Chains(dw, u, t, off, above), above)
    decreases t, 1
  {
    hide Over, EntryOf, Below, Chain;
    var tag := EntryOf(dw, u, t).tag;
    ChainsParts(dw, u, t, off, above);
    BelowOver(dw, u, t, off, above);
    OverWeaken(Below(dw, u, t, off, above), tag, Place(u, off), above);
    OverOwn(tag, Place(u, off), above);
    OverAppend(Below(dw, u, t, off, above), Own(dw, u, t, off, above), above);
  }

  lemma {:induction false} ListChainsOver(dw: Dwarf, u: Unit, f: Forest, off: nat, above: seq<Place>)
    ensures Over(ListChains(dw, u, f, off, above), above)
    decreases f, 1
  {
    hide *;
    match f
    case End(pad) =>
      EndChains(dw, u, pad, off, above, _ => Value(false));
    case Cons(t, rest) =>
      var to := off + TreeLength(dw, u, t);
      ChainsOver(dw, u, t, off, above);
      UnreadOver(above);
      ListChainsOver(dw, u, rest, to, above);
      ListChainsCons(dw, u, t, rest, off, above);
      OverAppend(if HeadSkips(dw, u, t) then Chains(dw, u, t, off, above) else [[]],
                 ListChains(dw, u, rest, to, above), above);
  }

  lemma EndChains(dw: Dwarf, u: Unit, pad: nat, off: nat, above: seq<Place>, ranges: Ranges)
    ensures Over(ListChains(dw, u, End(pad), off, above), above)
    ensures ListSearch(dw, u, End(pad), off, ranges) ==
            Expected(FirstHit(ListChains(dw, u, End(pad), off, above), ranges), above)
  {
  }

  lemma UnreadOver(above: seq<Place>)
    ensures Over([[]], above)
    ensures forall ranges: Ranges :: FirstHit([[]], ranges) == Throw(Format)
    ensures Expected(Throw(Format), above) == Throw(Format)
  {
  }

  lemma OverAppend(a: seq<seq<Place>>, b: seq<seq<Place>>, above: seq<Place>)
    requires Over(a, above) && Over(b, above)
    ensures Over(a + b, above)
  {
  }

  lemma {:induction false} FirstHitAppend(a: seq<seq<Place>>, b: seq<seq<Place>>, ranges: Ranges)
    ensures FirstHit(a + b, ranges) ==
            if FirstHit(a, ranges) == Value(None) then FirstHit(b, ranges) else FirstHit(a, ranges)
    decreases |a|
  {
    if a == [] {
      assert a + b == b;
    } else {
      assert (a + b)[1..] == a[1..] + b;
      FirstHitAppend(a[1..], b, ranges);
    }
  }

  lemma {:induction false} FirstHitOver(chains: seq<seq<Place>>, ranges: Ranges, above: seq<Place>)
    requires Over(chains, above)
    ensures var hit := FirstHit(chains, ranges);
            hit.Value? && hit.value.Some? ==>
              var c := hit.value.value; |c| > |above| && c[|c| - |above|..] == above
  {
    if chains != [] {
      FirstHitOver(chains[1..], ranges, above);
    }
  }

  lemma FirstHitSingle(chain: seq<Place>, ranges: Ranges)
    requires chain != []
    ensures FirstHit([chain], ranges) ==
            (match Hit(ranges(chain[0]))
             case Throw(e) => Throw(e)
             case Value(hit) => Value(if hit then Some(chain) else None))
  {
    assert [chain][1..] == [];
  }

  /** Adding the function DIE itself to what was found below it. */
  lemma EncloseExpected(
    hit: Outcome<Option<seq<Place>>>, tag: u32, self: Place, above: seq<Place>, ranges: Ranges)
    requires IsFunction(tag)
    requires hit.Value? && hit.value.Some? ==>
      var c := hit.value.value;
      |c| > |above| + 1 && c[|c| - |above| - 1..] == [self] + above
    ensures var inner := Expected(hit, [self] + above);
            var all := if hit == Value(None) then FirstHit([[self] + above], ranges) else hit;
            (if inner.Throw? then inner else Enclose(tag, inner.value, self, ranges)) ==
            Expected(all, above)
  {
    FirstHitSingle([self] + above, ranges);
    if hit.Value? && hit.value.Some? {
      var c := hit.value.value;
      assert c[|c| - |above| - 1] == c[|c| - |above| - 1..][0] == self;
      assert c[..|c| - |above|] == c[..|c| - |above| - 1] + [self];
    } else {
      assert ([self] + above)[..1] == [self] == [] + [self];
      assert |[self] + above| - |above| == 1;
    }
  }

  /** The search pushes the first function DIE in post-order that is hit, then its
      function-tagged ancestors up to the tree's root, innermost first - unless a DIE before it
      cannot be read, or a range asked for before it throws. */
  lemma {:induction false} SearchIsFirstHit(
    dw: Dwarf, u: Unit, t: Tree, off: nat, above: seq<Place>, ranges: Ranges)
    ensures TreeSearch(dw, u, t, off, ranges) ==
            Expected(FirstHit(Chains(dw, u, t, off, above), ranges), above)
    decreases t, 1
  {
    hide *;
    var tag, self := EntryOf(dw, u, t).tag, Place(u, off);
    var below, own := Below(dw, u, t, off, above), Own(dw, u, t, off, above);
    ChainsParts(dw, u, t, off, above);
    FirstHitAppend(below, own, ranges);
    BelowOver(dw, u, t, off, above);
    FirstHitOver(below, ranges, Chain(tag, self, above));
    InnerIsFirstHit(dw, u, t, off, above, ranges);
    EncloseStep(dw, u, t, off, above, ranges, FirstHit(below, ranges));
  }

  lemma {:induction false} InnerIsFirstHit(
    dw: Dwarf, u: Unit, t: Tree, off: nat, above: seq<Place>, ranges: Ranges)
    ensures Inner(dw, u, t, off, ranges) ==
            Expected(FirstHit(Below(dw, u, t, off, above), ranges),
                     Chain(EntryOf(dw, u, t).tag, Place(u, off), above))
    decreases t, 0
  {
    hide EntryOf, EncodeHead, Chain, Expected;
    var chain := Chain(EntryOf(dw, u, t).tag, Place(u, off), above);
    NothingHit(ranges, chain);
    if EntryOf(dw, u, t).children {
      ListSearchIsFirstHit(dw, u, t.kids, off + |EncodeHead(dw, u, t)|, chain, ranges);
    }
  }

  lemma EncloseStep(
    dw: Dwarf, u: Unit, t: Tree, off: nat, above: seq<Place>, ranges: Ranges,
    hit: Outcome<Option<seq<Place>>>)
    requires var chain := Chain(EntryOf(dw, u, t).tag, Place(u, off), above);
             Inner(dw, u, t, off, ranges) == Expected(hit, chain) &&
             (hit.Value? && hit.value.Some? ==>
                |hit.value.value| > |chain| && hit.value.value[|hit.value.value| - |chain|..] == chain)
    ensures TreeSearch(dw, u, t, off, ranges) ==
            Expected(if hit == Value(None) then FirstHit(Own(dw, u, t, off, above), ranges) else hit, above)
  {
    hide EntryOf, EncodeHead, Expected, Enclose, FirstHit;
    var tag, self := EntryOf(dw, u, t).tag, Place(u, off);
    if IsFunction(tag) {
      EncloseExpected(hit, tag, self, above, ranges);
    } else {
      EncloseOther(tag, self, ranges);
      NothingHit(ranges, above);
      NoHit();
    }
  }

  lemma NoHit()
    ensures forall ranges: Ranges :: FirstHit([], ranges) == Value(None)
  {
  }

  lemma NothingHit(ranges: Ranges, above: seq<Place>)
    ensures Expected(FirstHit([], ranges), above) == Value(Found(false, []))
  {
  }

  lemma EncloseOther(tag: u32, self: Place, ranges: Ranges)
    requires !IsFunction(tag)
    ensures forall inner :: Enclose(tag, inner, self, ranges) == Value(inner)
  {
  }

  lemma ExpectedThen(
    first: Outcome<Option<seq<Place>>>, second: Outcome<Option<seq<Place>>>, above: seq<Place>)
    requires first.Value? && first.value.Some? ==> |first.value.value| > |above|
    ensures Then(Expected(first, above), Expected(second, above)) ==
            Expected(if first == Value(None) then second else first, above)
  {
    if first == Value(None) && Expected(second, above).Value? {
      var m := Expected(second, above).value;
      assert [] + m.pushed == m.pushed;
    }
  }

  lemma {:induction false} ListSearchIsFirstHit(
    dw: Dwarf, u: Unit, f: Forest, off: nat, above: seq<Place>, ranges: Ranges)
    ensures ListSearch(dw, u, f, off, ranges) ==
            Expected(FirstHit(ListChains(dw, u, f, off, above), ranges), above)
    decreases f, 1
  {
    hide *;
    match f
    case End(pad) =>
      EndChains(dw, u, pad, off, above, ranges);
    case Cons(t, rest) =>
      var to := off + TreeLength(dw, u, t);
      var first := if HeadSkips(dw, u, t) then Chains(dw, u, t, off, above) else [[]];
      var others := ListChains(dw, u, rest, to, above);
      ListSearchCons(dw, u, t, rest, off, ranges);
      ListChainsCons(dw, u, t, rest, off, above);
      SearchIsFirstHit(dw, u, t, off, above, ranges);
      ListSearchIsFirstHit(dw, u, rest, to, above, ranges);
      FirstHitAppend(first, others, ranges);
      ChainsOver(dw, u, t, off, above);
      UnreadOver(above);
      FirstHitOver(first, ranges, above);
      ExpectedThen(FirstHit(first, ranges), FirstHit(others, ranges), above);
  }

  /** The search over a stored tree, in terms of its function DIEs only. */
  lemma FindStored(dw: Dwarf, u: Unit, t: Tree, off: nat, ranges: Ranges, fuel: nat)
    requires TreeStored(dw, u, t, off) && fuel >= Size(t.kids)
    ensures Searches(dw, u, off, InfoOf(dw, u, t, off), ranges, fuel,
                     Expected(FirstHit(Chains(dw, u, t, off, []), ranges), []))
  {
    hide *;
    SearchStored(dw, u, t, off, ranges, fuel);
    SearchIsFirstHit(dw, u, t, off, [], ranges);
  }

  /** When every DIE can be read and no range lookup throws past the search, it finds something
      exactly when some function DIE is hit, and then the first one in post-order. */
  lemma {:induction false} FirstHitMeans(chains: seq<seq<Place>>, ranges: Ranges)
    requires forall k :: 0 <= k < |chains| ==> chains[k] != [] && Hit(ranges(chains[k][0])).Value?
    ensures match FirstHit(chains, ranges)
            case Throw(_) => false
            case Value(None) => forall k :: 0 <= k < |chains| ==> !Hit(ranges(chains[k][0])).value
            case Value(Some(c)) =>
              exists k :: 0 <= k < |chains| && chains[k] == c && Hit(ranges(c[0])) == Value(true) &&
                          forall j :: 0 <= j < k ==> !Hit(ranges(chains[j][0])).value
  {
    if chains != [] && !Hit(ranges(chains[0][0])).value {
      var rest := chains[1..];
      FirstHitMeans(rest, ranges);
      var hit := FirstHit(rest, ranges);
      if hit.value.Some? {
        var k :| 0 <= k < |rest| && rest[k] == hit.value.value &&
                 Hit(ranges(hit.value.value[0])) == Value(true) &&
                 forall j :: 0 <= j < k ==> !Hit(ranges(rest[j][0])).value;
        assert chains[k + 1] == hit.value.value;
        assert forall j :: 0 < j < k + 1 ==> chains[j] == rest[j - 1];
      }
    }
  }

  // The whole of it, without chains.

  /** The function DIEs of a tree - its subprograms, of tag 0x2e, and inlined subroutines, of tag
      0x1d - in post-order. */
  ghost function Functions(dw: Dwarf, u: Unit, t: Tree, off: nat): seq<Place>
    decreases t
  {
    var e := EntryOf(dw, u, t);
    (if e.children then ListFunctions(dw, u, t.kids, off + |EncodeHead(dw, u, t)|) else [])
    + if e.tag == 0x2e || e.tag == 0x1d then [Place(u, off)] else []
  }

  ghost function ListFunctions(dw: Dwarf, u: Unit, f: Forest, off: nat): seq<Place>
    decreases f
  {
    match f
    case End(_) => []
    case Cons(t, rest) =>
      Functions(dw, u, t, off) + ListFunctions(dw, u, rest, off + TreeLength(dw, u, t))
  }

  /** Every DIE below this one can be read. */
  ghost predicate Legible(dw: Dwarf, u: Unit, t: Tree)
    decreases t
  {
    EntryOf(dw, u, t).children ==> LegibleForest(dw, u, t.kids)
  }

  ghost predicate LegibleForest(dw: Dwarf, u: Unit, f: Forest)
    decreases f
  {
    match f
    case End(_) => true
    case Cons(t, rest) => HeadSkips(dw, u, t) && Legible(dw, u, t) && LegibleForest(dw, u, rest)
  }

  /** Each chain starts at the function DIE it is for. */
  ghost predicate Heads(chains: seq<seq<Place>>, places: seq<Place>) {
    |chains| == |places| && forall k :: 0 <= k < |chains| ==> chains[k] != [] && chains[k][0] == places[k]
  }

  lemma HeadsAppend(a: seq<seq<Place>>, p: seq<Place>, b: seq<seq<Place>>, q: seq<Place>)
    requires Heads(a, p) && Heads(b, q)
    ensures Heads(a + b, p + q)
  {
  }

  lemma {:induction false} FunctionHeads(dw: Dwarf, u: Unit, t: Tree, off: nat, above: seq<Place>)
    requires Legible(dw, u, t)
    ensures Heads(Chains(dw, u, t, off, above), Functions(dw, u, t, off))
    decreases t
  {
    hide EntryOf, EncodeHead, Heads;
    var e := EntryOf(dw, u, t);
    var chain, at := Chain(e.tag, Place(u, off), above), off + |EncodeHead(dw, u, t)|;
    NoHeads();
    OwnHead(e.tag, Place(u, off), above);
    if e.children {
      ListFunctionHeads(dw, u, t.kids, at, chain);
    }
    HeadsAppend(if e.children then ListChains(dw, u, t.kids, at, chain) else [],
                if e.children then ListFunctions(dw, u, t.kids, at) else [],
                if IsFunction(e.tag) then [chain] else [],
                if IsFunction(e.tag) then [Place(u, off)] else []);
  }

  lemma NoHeads()
    ensures Heads([], [])
  {
  }

  lemma OwnHead(tag: u32, self: Place, above: seq<Place>)
    ensures IsFunction(tag) ==> Heads([Chain(tag, self, above)], [self])
  {
  }

  lemma {:induction false} ListFunctionHeads(dw: Dwarf, u: Unit, f: Forest, off: nat, above: seq<Place>)
    requires LegibleForest(dw, u, f)
    ensures Heads(ListChains(dw, u, f, off, above), ListFunctions(dw, u, f, off))
    decreases f
  {
    hide Heads, TreeLength, EntryOf;
    match f
    case End(_) => NoHeads();
    case Cons(t, rest) =>
      var to := off + TreeLength(dw, u, t);
      FunctionHeads(dw, u, t, off, above);
      ListFunctionHeads(dw, u, rest, to, above);
      HeadsAppend(Chains(dw, u, t, off, above), Functions(dw, u, t, off),
                  ListChains(dw, u, rest, to, above), ListFunctions(dw, u, rest, to));
  }

  ghost predicate AnyHit(places: seq<Place>, ranges: Ranges) {
    exists p :: p in places && ranges(p) == Value(true)
  }

  /** Looking up the range of a function DIE answers, or throws out_of_range or a type mismatch:
      it has no usable range. */
  ghost predicate Answered(places: seq<Place>, ranges: Ranges) {
    forall p :: p in places ==> ranges(p).Value? || ranges(p) == Throw(OutOfRange) || ranges(p) == Throw(TypeMismatch)
  }

  /** The first k places are passed: none contains the address, and none throws more than that it
      has no usable range. */
  ghost predicate PassedOver(places: seq<Place>, ranges: Ranges, k: nat) {
    k <= |places| &&
    forall j :: 0 <= j < k ==>
      ranges(places[j]) in {Value(false), Throw(OutOfRange), Throw(TypeMismatch)}
  }

  /** What the search makes of the place after those passed. */
  lemma {:induction false} FirstNotPassed(chains: seq<seq<Place>>, places: seq<Place>, ranges: Ranges, k: nat)
    requires Heads(chains, places) && PassedOver(places, ranges, k)
    ensures k == |places| ==> FirstHit(chains, ranges) == Value(None)
    ensures k < |places| && ranges(places[k]) == Value(true) ==> FirstHit(chains, ranges) == Value(Some(chains[k]))
    ensures k < |places| && ranges(places[k]).Throw? && ranges(places[k]).error !in {OutOfRange, TypeMismatch} ==>
      FirstHit(chains, ranges) == Throw(ranges(places[k]).error)
    decreases k
  {
    if k > 0 {
      assert ranges(places[0]) in {Value(false), Throw(OutOfRange), Throw(TypeMismatch)};
      assert PassedOver(places[1..], ranges, k - 1);
      FirstNotPassed(chains[1..], places[1..], ranges, k - 1);
    }
  }

  /** The first place that is not passed, if any. */
  ghost function FirstLeft(places: seq<Place>, ranges: Ranges): (k: nat)
    ensures PassedOver(places, ranges, k)
    ensures k < |places| ==> ranges(places[k]) !in {Value(false), Throw(OutOfRange), Throw(TypeMismatch)}
  {
    if places == [] || ranges(places[0]) !in {Value(false), Throw(OutOfRange), Throw(TypeMismatch)} then 0
    else
      var k := FirstLeft(places[1..], ranges);
      assert forall j :: 0 < j < k + 1 ==> places[j] == places[1..][j - 1];
      k + 1
  }

  /** `find_pc` on the bytes of a stored tree, all of it readable, asks the function DIEs in
      post-order.  It passes over those whose ranges do not contain the address and those without
      a usable one.  The first that does is pushed, with its function-tagged ancestors; a lookup
      that throws anything else ends the search with that; and if all are passed it pushes none. */
  lemma SearchMeets(dw: Dwarf, u: Unit, t: Tree, off: nat, ranges: Ranges, fuel: nat, k: nat)
    requires TreeStored(dw, u, t, off) && fuel >= Size(t.kids) && Legible(dw, u, t)
    requires PassedOver(Functions(dw, u, t, off), ranges, k)
    ensures var places, i := Functions(dw, u, t, off), InfoOf(dw, u, t, off);
            var chains := Chains(dw, u, t, off, []);
            && (k == |places| ==> Searches(dw, u, off, i, ranges, fuel, Value(Found(false, []))))
            && (k < |places| && ranges(places[k]) == Value(true) ==>
                  |chains| == |places| && chains[k] != [] && chains[k][0] == places[k] &&
                  Searches(dw, u, off, i, ranges, fuel, Value(Found(true, chains[k]))))
            && (k < |places| && ranges(places[k]).Throw? && ranges(places[k]).error !in {OutOfRange, TypeMismatch} ==>
                  Searches(dw, u, off, i, ranges, fuel, Throw(ranges(places[k]).error)))
  {
    hide Searches, TreeStored, Legible, Chains, Functions, FirstHit, Expected, PassedOver, InfoOf;
    var chains := Chains(dw, u, t, off, []);
    FindStored(dw, u, t, off, ranges, fuel);
    FunctionHeads(dw, u, t, off, []);
    FirstNotPassed(chains, Functions(dw, u, t, off), ranges, k);
    ExpectedWhole(FirstHit(chains, ranges));
  }

  /** So it returns true exactly when the ranges of some function DIE of the tree contain the
      address; it then pushes one of them first, with its function-tagged ancestors, and otherwise
      nothing. */
  lemma FindsExactly(dw: Dwarf, u: Unit, t: Tree, off: nat, ranges: Ranges, fuel: nat) returns (r: Found)
    requires TreeStored(dw, u, t, off) && fuel >= Size(t.kids)
    requires Legible(dw, u, t) && Answered(Functions(dw, u, t, off), ranges)
    ensures Searches(dw, u, off, InfoOf(dw, u, t, off), ranges, fuel, Value(r))
    ensures r.found <==> AnyHit(Functions(dw, u, t, off), ranges)
    ensures r.found ==>
      r.pushed != [] && r.pushed in Chains(dw, u, t, off, []) && ranges(r.pushed[0]) == Value(true)
    ensures !r.found ==> r.pushed == []
  {
    hide Searches, TreeStored, Legible, Chains, Functions, FirstLeft;
    var places := Functions(dw, u, t, off);
    var k := FirstLeft(places, ranges);
    SearchMeets(dw, u, t, off, ranges, fuel, k);
    if k < |places| {
      assert places[k] in places;
      var answer := ranges(places[k]);
      assert answer.Value? && answer.value;
      r := Found(true, Chains(dw, u, t, off, [])[k]);
    } else {
      r := Found(false, []);
    }
  }

  lemma ExpectedWhole(hit: Outcome<Option<seq<Place>>>)
    ensures hit.Throw? ==> Expected(hit, []) == Throw(hit.error)
    ensures hit.Value? ==>
      Expected(hit, []) ==
      Value(if hit.value.Some? then Found(true, hit.value.value) else Found(false, []))
  {
    if hit.Value? && hit.value.Some? {
      assert hit.value.value[..|hit.value.value|] == hit.value.value;
    }
  }
}
