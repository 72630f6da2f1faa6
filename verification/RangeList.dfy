/** Range lists (section 2.17.3 of DWARF Version 4): an iterator with a running base address,
    and membership in the union of the ranges. */
module RangeLists {
  import opened Outcomes
  import opened Words
  import opened Sections
  import opened Cursors

  datatype Entry = Entry(low: u64, high: u64) {
    predicate Contains(addr: u64) {
      low <= addr < high
    }
  }

  /** The low address that marks a base selection: all ones in the address size. */
  function LargestOffset(addrSize: nat): u64 {
    match addrSize case 1 => 0xff case 2 => 0xffff case 4 => B32 - 1 case _ => B64 - 1
  }

  /** What an increment leaves: the entry, if the list has not ended, the base and the offset
      of what follows. */
  datatype Next = Next(entry: Option<Entry>, base: u64, pos: nat)

  function NextRange(s: Section, base: u64, pos: nat): Outcome<Next>
    decreases |s.data| - pos
  {
    var (low, p) :- ReadAddress(s, pos);
    var (high, q) :- ReadAddress(s, p);
    AddressAdvances(s, pos);
    AddressAdvances(s, p);
    if low == 0 && high == 0 then Value(Next(None, base, 0))
    else if low == LargestOffset(s.addrSize) then NextRange(s, high, q)
    else Value(Next(Some(Entry(Wrap64(low + base), Wrap64(high + base))), base, q))
  }

  lemma AddressAdvances(s: Section, pos: nat)
    ensures ReadAddress(s, pos).Value? ==> pos < ReadAddress(s, pos).value.1 <= |s.data|
  {
  }

  lemma {:induction false} NextRangeAdvances(s: Section, base: u64, pos: nat)
    ensures NextRange(s, base, pos).Value? && NextRange(s, base, pos).value.entry.Some? ==>
      pos < NextRange(s, base, pos).value.pos <= |s.data|
    decreases |s.data| - pos
  {
    hide ReadAddress, LargestOffset;
    AddressAdvances(s, pos);
    if ReadAddress(s, pos).Value? {
      var p := ReadAddress(s, pos).value.1;
      AddressAdvances(s, p);
      if ReadAddress(s, p).Value? {
        NextRangeAdvances(s, ReadAddress(s, p).value.0, ReadAddress(s, p).value.1);
      }
    }
  }

  /** All the entries from an offset on. */
  function Ranges(s: Section, base: u64, pos: nat): Outcome<seq<Entry>>
    decreases |s.data| - pos
  {
    var n :- NextRange(s, base, pos);
    match n.entry
    case None => Value([])
    case Some(e) =>
      NextRangeAdvances(s, base, pos);
      var rest :- Ranges(s, n.base, n.pos);
      Value([e] + rest)
  }

  /** Whether an entry contains the address; what follows the first that does is not read. */
  function Search(s: Section, base: u64, pos: nat, addr: u64): Outcome<bool>
    decreases |s.data| - pos
  {
    var n :- NextRange(s, base, pos);
    match n.entry
    case None => Value(false)
    case Some(e) =>
      NextRangeAdvances(s, base, pos);
      if e.Contains(addr) then Value(true) else Search(s, n.base, n.pos, addr)
  }

  /** Some range starts at or before the address and ends past it. */
  ghost predicate InUnion(es: seq<Entry>, addr: u64) {
    exists i :: 0 <= i < |es| && es[i].low <= addr && addr < es[i].high
  }

  lemma UnionCons(e: Entry, es: seq<Entry>, addr: u64)
    ensures InUnion([e] + es, addr) <==> e.Contains(addr) || InUnion(es, addr)
    ensures !InUnion([], addr)
  {
    var all := [e] + es;
    if InUnion(es, addr) {
      var i :| 0 <= i < |es| && es[i].low <= addr && addr < es[i].high;
      assert all[i + 1] == es[i];
    }
    if e.Contains(addr) {
      assert all[0] == e;
    }
  }

  /** The search decides membership in the union of the ranges. */
  lemma {:induction false} SearchDecides(s: Section, base: u64, pos: nat, addr: u64)
    requires Ranges(s, base, pos).Value?
    ensures Search(s, base, pos, addr) == Value(InUnion(Ranges(s, base, pos).value, addr))
    decreases |s.data| - pos
  {
    hide NextRange, InUnion;
    var n := NextRange(s, base, pos).value;
    UnionCons(Entry(0, 0), [], addr);
    if n.entry.Some? {
      NextRangeAdvances(s, base, pos);
      UnionCons(n.entry.value, Ranges(s, n.base, n.pos).value, addr);
      SearchDecides(s, n.base, n.pos, addr);
    }
  }

  class RangeIterator {
    var sec: Option<Section>
    var base: u64
    var pos: nat
    var entry: Entry

    /** Not yet at the first entry. */
    constructor (sec: Section, base: u64)
      ensures this.sec == Some(sec) && this.base == base && pos == 0
    {
      this.sec, this.base, pos, entry := Some(sec), base, 0, Entry(0, 0);
    }

    /** Equal to the end iterator. */
    predicate AtEnd()
      reads this
    {
      sec == None && pos == 0
    }

    /** `++`, which the end iterator does not have. */
    method Increment() returns (r: Outcome<()>)
      requires sec.Some?
      modifies this
      ensures match NextRange(old(sec).value, old(base), old(pos))
              case Throw(e) => r == Throw(e)
              case Value(n) =>
                r == Value(()) && base == n.base && pos == n.pos &&
                match n.entry
                case None => AtEnd()
                case Some(e) => sec == old(sec) && entry == e
    {
      hide ReadAddress, LargestOffset;
      var s := sec.value;
      var cur := new Cursor(s, pos);
      while true
        invariant fresh(cur) && cur.sec == s && sec == old(sec)
        invariant NextRange(s, base, cur.pos) == NextRange(s, old(base), old(pos))
        decreases |s.data| - cur.pos
      {
        AddressAdvances(s, cur.pos);
        var low :- cur.Address();
        AddressAdvances(s, cur.pos);
        var high :- cur.Address();
        entry := Entry(low, high);
        if low == 0 && high == 0 {
          sec, pos := None, 0;
          return Value(());
        } else if low == LargestOffset(s.addrSize) {
          base := high;
        } else {
          entry := Entry(Wrap64(low + base), Wrap64(high + base));
          pos := cur.pos;
          return Value(());
        }
      }
    }
  }

  /** `contains`. */
  method Contains(s: Section, base: u64, addr: u64) returns (r: Outcome<bool>)
    ensures r == Search(s, base, 0, addr)
  {
    hide NextRange;
    NextRangeAdvances(s, base, 0);
    var it := new RangeIterator(s, base);
    var _ :- it.Increment();
    while !it.AtEnd()
      invariant fresh(it) && it.pos <= |s.data| && (it.sec == Some(s) || (it.sec == None && it.pos == 0))
      invariant Search(s, base, 0, addr) ==
                if it.sec == None then Value(false)
                else if it.entry.Contains(addr) then Value(true) else Search(s, it.base, it.pos, addr)
      decreases if it.sec.Some? then |s.data| + 1 - it.pos else 0
    {
      if it.entry.Contains(addr) {
        return Value(true);
      }
      NextRangeAdvances(s, it.base, it.pos);
      var _ :- it.Increment();
    }
    return Value(false);
  }

  // Lists as they are written.

  /** Two addresses, as they are in the section. */
  datatype Stored = Stored(low: u64, high: u64)

  function EncodePairs(ord: Order, size: nat, ws: seq<Stored>): seq<byte> {
    if ws == [] then []
    else EncodeFixed(ord, size, ws[0].low) + EncodeFixed(ord, size, ws[0].high) + EncodePairs(ord, size, ws[1..])
  }

  ghost predicate Storable(size: nat, ws: seq<Stored>) {
    size in {1, 2, 4, 8} &&
    forall i :: 0 <= i < |ws| ==> ws[i].low < Pow2(8 * size) && ws[i].high < Pow2(8 * size)
  }

  /** The ranges of stored pairs up to the first pair of zeros, each shifted by the latest
      base before it. */
  function Yield(ws: seq<Stored>, base: u64, largest: u64): seq<Entry> {
    if ws == [] || ws[0] == Stored(0, 0) then []
    else if ws[0].low == largest then Yield(ws[1..], ws[0].high, largest)
    else [Entry(Wrap64(ws[0].low + base), Wrap64(ws[0].high + base))] + Yield(ws[1..], base, largest)
  }

  lemma PairRead(s: Section, w: Stored, rest: seq<byte>, pos: nat)
    requires s.addrSize in {1, 2, 4, 8} && w.low < Pow2(8 * s.addrSize) && w.high < Pow2(8 * s.addrSize)
    requires At(s.data, pos, EncodeFixed(s.ord, s.addrSize, w.low) + EncodeFixed(s.ord, s.addrSize, w.high) + rest)
    ensures ReadAddress(s, pos) == Value((w.low, pos + s.addrSize))
    ensures ReadAddress(s, pos + s.addrSize) == Value((w.high, pos + 2 * s.addrSize))
    ensures At(s.data, pos + 2 * s.addrSize, rest)
  {
    hide At, EncodeFixed, ReadFixed, Pow2;
    var n := s.addrSize;
    var low, high := EncodeFixed(s.ord, n, w.low), EncodeFixed(s.ord, n, w.high);
    EncodeFixedLength(s.ord, n, w.low);
    EncodeFixedLength(s.ord, n, w.high);
    AtAppend(s.data, pos, low + high, rest);
    AtAppend(s.data, pos, low, high);
    FixedRoundTrip(s, n, w.low, pos);
    FixedRoundTrip(s, n, w.high, pos + n);
  }

  lemma RangesOfPair(s: Section, w: Stored, base: u64, pos: nat)
    requires ReadAddress(s, pos) == Value((w.low, pos + s.addrSize))
    requires ReadAddress(s, pos + s.addrSize) == Value((w.high, pos + 2 * s.addrSize))
    requires s.addrSize > 0
    ensures var next := pos + 2 * s.addrSize;
            if w == Stored(0, 0) then Ranges(s, base, pos) == Value([])
            else if w.low == LargestOffset(s.addrSize) then Ranges(s, base, pos) == Ranges(s, w.high, next)
            else
              Ranges(s, base, pos) ==
              Prepend([Entry(Wrap64(w.low + base), Wrap64(w.high + base))], Ranges(s, base, next))
  {
    hide ReadAddress, LargestOffset;
  }

  /** Any pairs with a pair of zeros after them are iterated as `Yield` says. */
  lemma {:induction false} StoredYield(s: Section, ws: seq<Stored>, base: u64, pos: nat)
    requires s.addrSize in {1, 2, 4, 8} && Storable(s.addrSize, ws)
    requires At(s.data, pos, EncodePairs(s.ord, s.addrSize, ws + [Stored(0, 0)]))
    ensures Ranges(s, base, pos) == Value(Yield(ws, base, LargestOffset(s.addrSize)))
    decreases |ws|
  {
    hide At, EncodeFixed, ReadAddress, LargestOffset, Ranges, Pow2, Wrap64;
    var all := ws + [Stored(0, 0)];
    var n := s.addrSize;
    PairRead(s, all[0], EncodePairs(s.ord, n, all[1..]), pos);
    RangesOfPair(s, all[0], base, pos);
    if ws != [] && ws[0] != Stored(0, 0) {
      assert all[1..] == ws[1..] + [Stored(0, 0)];
      StoredYield(s, ws[1..], if ws[0].low == LargestOffset(n) then ws[0].high else base, pos + 2 * n);
    }
  }

  /** A range list as it is meant: base selections and ranges. */
  datatype Item = Base(base: u64) | Range(low: u64, high: u64)

  function Written(items: seq<Item>, largest: u64): seq<Stored> {
    if items == [] then []
    else
      [match items[0] case Base(b) => Stored(largest, b) case Range(low, high) => Stored(low, high)]
      + Written(items[1..], largest)
  }

  /** A range must not look like the end of the list or like a base selection. */
  ghost predicate WellFormed(items: seq<Item>, size: nat) {
    size in {1, 2, 4, 8} &&
    forall i :: 0 <= i < |items| ==>
      match items[i]
      case Base(b) => b < Pow2(8 * size)
      case Range(low, high) =>
        low < Pow2(8 * size) && high < Pow2(8 * size) && (low, high) != (0, 0) && low != LargestOffset(size)
  }

  /** Each regular range, shifted by the base in force where it stands. */
  function Shifted(items: seq<Item>, base: u64): seq<Entry> {
    if items == [] then []
    else
      match items[0]
      case Base(b) => Shifted(items[1..], b)
      case Range(low, high) => [Entry(Wrap64(low + base), Wrap64(high + base))] + Shifted(items[1..], base)
  }

  lemma LargestFits(size: nat)
    requires size in {1, 2, 4, 8}
    ensures LargestOffset(size) == Pow2(8 * size) - 1
  {
    Pow2Of64();
  }

  lemma {:induction false} WrittenStorable(items: seq<Item>, size: nat)
    requires WellFormed(items, size)
    ensures Storable(size, Written(items, LargestOffset(size)))
    decreases |items|
  {
    hide LargestOffset;
    LargestFits(size);
    if items != [] {
      WrittenStorable(items[1..], size);
    }
  }

  lemma {:induction false} WrittenYields(items: seq<Item>, base: u64, size: nat)
    requires WellFormed(items, size)
    ensures Yield(Written(items, LargestOffset(size)), base, LargestOffset(size)) == Shifted(items, base)
    decreases |items|
  {
    hide Wrap64;
    if items != [] {
      var ws := Written(items, LargestOffset(size));
      assert ws[1..] == Written(items[1..], LargestOffset(size));
      match items[0]
      case Base(b) => WrittenYields(items[1..], b, size);
      case Range(_, _) => WrittenYields(items[1..], base, size);
    }
  }

  /** A well-formed list is iterated as its ranges shifted by the latest base, and an address
      is found exactly when one of them contains it. */
  lemma ListMeaning(s: Section, items: seq<Item>, base: u64, addr: u64)
    requires WellFormed(items, s.addrSize)
    requires At(s.data, 0, EncodePairs(s.ord, s.addrSize, Written(items, LargestOffset(s.addrSize)) + [Stored(0, 0)]))
    ensures Ranges(s, base, 0) == Value(Shifted(items, base))
    ensures Search(s, base, 0, addr) == Value(InUnion(Shifted(items, base), addr))
  {
    hide LargestOffset, At, EncodePairs, WellFormed, Storable, Wrap64;
    assert s.addrSize in {1, 2, 4, 8} by { SizeKnown(items, s.addrSize); }
    WrittenStorable(items, s.addrSize);
    StoredYield(s, Written(items, LargestOffset(s.addrSize)), base, 0);
    WrittenYields(items, base, s.addrSize);
    SearchDecides(s, base, 0, addr);
  }

  lemma SizeKnown(items: seq<Item>, size: nat)
    requires WellFormed(items, size)
    ensures size in {1, 2, 4, 8}
  {
  }

  // Lists made from pairs.

  /** The words the pair constructor stores. */
  method Synthesize(pairs: seq<Entry>) returns (synthetic: seq<u64>)
    ensures synthetic == Flat(pairs) + [0, 0]
  {
    synthetic := [];
    for i := 0 to |pairs|
      invariant synthetic == Flat(pairs[..i])
    {
      FlatSnoc(pairs[..i], pairs[i]);
      assert pairs[..i + 1] == pairs[..i] + [pairs[i]];
      synthetic := synthetic + [pairs[i].low];
      synthetic := synthetic + [pairs[i].high];
    }
    assert pairs[..|pairs|] == pairs;
    synthetic := synthetic + [0];
    synthetic := synthetic + [0];
  }

  function Flat(pairs: seq<Entry>): seq<u64> {
    if pairs == [] then [] else [pairs[0].low, pairs[0].high] + Flat(pairs[1..])
  }

  lemma {:induction false} FlatSnoc(pairs: seq<Entry>, e: Entry)
    ensures Flat(pairs + [e]) == Flat(pairs) + [e.low, e.high]
    decreases |pairs|
  {
    if pairs == [] {
      assert (pairs + [e])[1..] == [];
    } else {
      assert (pairs + [e])[1..] == pairs[1..] + [e];
      FlatSnoc(pairs[1..], e);
    }
  }

  /** The bytes of those words in memory, read with 8-byte addresses. */
  function Memory(ord: Order, ws: seq<u64>): Section {
    Section(Bytes(ord, ws), ord, Unknown, 8)
  }

  function Bytes(ord: Order, ws: seq<u64>): seq<byte> {
    if ws == [] then [] else EncodeFixed(ord, 8, ws[0]) + Bytes(ord, ws[1..])
  }

  function AsWords(pairs: seq<Entry>): seq<Stored> {
    if pairs == [] then [] else [Stored(pairs[0].low, pairs[0].high)] + AsWords(pairs[1..])
  }

  lemma {:induction false} BytesArePairs(ord: Order, pairs: seq<Entry>)
    ensures Bytes(ord, Flat(pairs) + [0, 0]) == EncodePairs(ord, 8, AsWords(pairs) + [Stored(0, 0)])
    decreases |pairs|
  {
    hide EncodeFixed;
    var ws, all := Flat(pairs) + [0, 0], AsWords(pairs) + [Stored(0, 0)];
    if pairs == [] {
      assert ws == [0, 0] && ws[1..] == [0] && ws[1..][1..] == [];
      assert all == [Stored(0, 0)] && all[1..] == [];
      var z := EncodeFixed(ord, 8, 0);
      assert Bytes(ord, [0]) == z + [] && z + (z + []) == z + z + [];
    } else {
      assert ws[1..] == [pairs[0].high] + (Flat(pairs[1..]) + [0, 0]);
      assert ws[1..][1..] == Flat(pairs[1..]) + [0, 0];
      assert all[1..] == AsWords(pairs[1..]) + [Stored(0, 0)];
      BytesArePairs(ord, pairs[1..]);
    }
  }

  ghost predicate Plain(e: Entry) {
    e != Entry(0, 0) && e.low != B64 - 1
  }

  lemma {:induction false} YieldPairs(pairs: seq<Entry>, base: u64)
    ensures |Yield(AsWords(pairs), base, B64 - 1)| <= |pairs|
    ensures |Yield(AsWords(pairs), base, B64 - 1)| == |pairs| ==> forall i :: 0 <= i < |pairs| ==> Plain(pairs[i])
    ensures (forall i :: 0 <= i < |pairs| ==> Plain(pairs[i])) && base == 0 ==>
      Yield(AsWords(pairs), base, B64 - 1) == pairs
    decreases |pairs|
  {
    hide Wrap64;
    if pairs != [] {
      YieldPairs(pairs[1..], base);
      YieldPairs(pairs[1..], pairs[0].high);
      WrapWord(pairs[0].low);
      WrapWord(pairs[0].high);
      assert AsWords(pairs)[1..] == AsWords(pairs[1..]);
    }
  }

  lemma WrapWord(x: u64)
    ensures Wrap64(x) == x && Wrap64(x + 0) == x
  {
  }

  lemma {:induction false} AsWordsStorable(pairs: seq<Entry>)
    ensures Storable(8, AsWords(pairs))
    decreases |pairs|
  {
    Pow2Of64();
    if pairs != [] {
      AsWordsStorable(pairs[1..]);
    }
  }

  /** Iterating a list made from pairs gives back the pairs if and only if none is (0, 0) and
      none has a low of 2^64 - 1. */
  lemma PairsIterate(ord: Order, pairs: seq<Entry>)
    ensures Ranges(Memory(ord, Flat(pairs) + [0, 0]), 0, 0) == Value(pairs) <==>
            forall i :: 0 <= i < |pairs| ==> Plain(pairs[i])
  {
    hide Ranges, Yield, Plain, Storable;
    var s := Memory(ord, Flat(pairs) + [0, 0]);
    BytesArePairs(ord, pairs);
    AsWordsStorable(pairs);
    assert At(s.data, 0, s.data);
    StoredYield(s, AsWords(pairs), 0, 0);
    YieldPairs(pairs, 0);
  }
}
