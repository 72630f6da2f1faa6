/** Loops over a line table: what they see, the lookup of an address, and the lookup of a
    file by index. */
module LineQueries {
  import opened Outcomes
  import opened Words
  import opened Sections
  import opened LineMachine
  import opened LineTables
  import opened LineFiles
  import opened LineHeader

  /** The next row and the state after it, without regard to files. */
  function RowOps(p: Program, r: Regs, pos: nat): Outcome<Moved>
    requires p.Valid()
    decreases |p.s.data| - pos
  {
    if pos >= |p.s.data| then Value(Moved(r, None, pos))
    else
      var (op, next) :- ReadOp(p.h, p.s, pos);
      ReadOpAdvances(p.h, p.s, pos);
      var e := Apply(p.h, r, op);
      if e.row.Some? then Value(Moved(e.regs, e.row, next)) else RowOps(p, e.regs, next)
  }

  lemma {:induction false} ToRowIsRowOps(p: Program, fs: Files, r: Regs, pos: nat)
    requires p.Valid()
    ensures ToRow(p, fs, r, pos).out.Value? ==> ToRow(p, fs, r, pos).out == RowOps(p, r, pos)
    ensures ToRow(p, fs, r, pos).out.Value? ==> pos <= ToRow(p, fs, r, pos).out.value.next
    ensures ToRow(p, fs, r, pos).out.Value? && pos < |p.s.data| ==>
      pos < ToRow(p, fs, r, pos).out.value.next <= |p.s.data|
    decreases |p.s.data| - pos
  {
    hide ReadOp, Apply, NoteAt;
    if pos < |p.s.data| {
      ReadOpAdvances(p.h, p.s, pos);
      var st := Exec(p, fs, r, pos);
      if st.out.Value? && st.out.value.row == None {
        ToRowIsRowOps(p, st.files, st.out.value.regs, st.out.value.next);
      }
    }
  }

  /** One-pass execution, row by row. */
  lemma {:induction false} RowsByRow(p: Program, r: Regs, pos: nat)
    requires p.Valid() && pos < |p.s.data|
    ensures match RowOps(p, r, pos)
            case Throw(e) => RowsAfter(p.h, p.s, r, pos) == Throw(e)
            case Value(m) =>
              match m.row
              case None => RowsAfter(p.h, p.s, r, pos) == Throw(Format)
              case Some(row) =>
                match Rows(p.h, p.s, m.regs, m.next)
                case Throw(e) => RowsAfter(p.h, p.s, r, pos) == Throw(e)
                case Value(rest) => RowsAfter(p.h, p.s, r, pos) == Value([row] + rest)
    decreases |p.s.data| - pos
  {
    var op := ReadOp(p.h, p.s, pos);
    ReadOpAdvances(p.h, p.s, pos);
    if op.Value? {
      var e := Apply(p.h, r, op.value.0);
      if e.row == None && op.value.1 < |p.s.data| {
        RowsByRow(p, e.regs, op.value.1);
      }
    }
  }

  lemma NextEntryMoves(p: Program, fs: Files, it: Iter)
    requires p.Valid() && it.pos < |p.s.data|
    ensures NextEntry(p, fs, it).out.Value? ==>
      it.pos < NextEntry(p, fs, it).out.value.pos <= |p.s.data| &&
      NextEntry(p, fs, it).out.value.entry.Some?
  {
    hide ToRow;
    ToRowIsRowOps(p, fs, it.regs, it.pos);
  }

  lemma AtEndStays(p: Program, fs: Files, it: Iter)
    requires p.Valid() && it.pos >= |p.s.data|
    ensures NextEntry(p, fs, it) == Advanced(fs, Value(it))
  {
  }

  /** What the increments from here yield, until one throws or the iterator is at the end. */
  datatype Pass = Pass(entries: seq<Entry>, end: Outcome<()>)

  ghost function Yield(p: Program, fs: Files, it: Iter): Pass
    requires p.Valid()
    decreases |p.s.data| - it.pos
  {
    if it.pos >= |p.s.data| then Pass([], Value(()))
    else
      NextEntryMoves(p, fs, it);
      var n := NextEntry(p, fs, it);
      match n.out
      case Throw(e) => Pass([], Throw(e))
      case Value(it') =>
        var rest := Yield(p, n.files, it');
        Pass([it'.entry.value] + rest.entries, rest.end)
  }

  ghost function RowsIn(es: seq<Entry>): seq<Regs> {
    if es == [] then [] else [es[0].row] + RowsIn(es[1..])
  }

  lemma {:induction false} RowsInAt(es: seq<Entry>)
    ensures |RowsIn(es)| == |es| && forall i :: 0 <= i < |es| ==> RowsIn(es)[i] == es[i].row
  {
    if es != [] {
      RowsInAt(es[1..]);
    }
  }

  lemma {:induction false} EmittedByRow(p: Program, r: Regs, pos: nat)
    requires p.Valid() && pos < |p.s.data|
    ensures RowOps(p, r, pos).Value? && RowOps(p, r, pos).value.row.Some? ==>
      var m := RowOps(p, r, pos).value;
      Emitted(p.h, p.s, r, pos) == [m.row.value] + Emitted(p.h, p.s, m.regs, m.next)
    decreases |p.s.data| - pos
  {
    hide ReadOp, Apply;
    if ReadOp(p.h, p.s, pos).Value? {
      var (op, next) := ReadOp(p.h, p.s, pos).value;
      ReadOpAdvances(p.h, p.s, pos);
      var e := Apply(p.h, r, op);
      if e.row == None && next < |p.s.data| {
        EmittedByRow(p, e.regs, next);
        assert [] + Emitted(p.h, p.s, e.regs, next) == Emitted(p.h, p.s, e.regs, next);
      }
    }
  }

  lemma YieldStep(p: Program, fs: Files, it: Iter)
    requires p.Valid() && it.pos < |p.s.data|
    ensures var n := NextEntry(p, fs, it);
            && (n.out.Throw? ==> Yield(p, fs, it) == Pass([], Throw(n.out.error)))
            && (n.out.Value? ==>
                  && n.out.value.entry.Some? && it.pos < n.out.value.pos <= |p.s.data|
                  && Yield(p, fs, it) == Pass([n.out.value.entry.value] + Yield(p, n.files, n.out.value).entries,
                                              Yield(p, n.files, n.out.value).end))
  {
    hide NextEntry;
    NextEntryMoves(p, fs, it);
  }

  /** An increment that returns takes the first row of those still to come. */
  lemma NextEntryRow(p: Program, fs: Files, it: Iter)
    requires p.Valid() && it.pos < |p.s.data| && NextEntry(p, fs, it).out.Value?
    ensures var it' := NextEntry(p, fs, it).out.value;
            it'.entry.Some? &&
            var row := it'.entry.value.row;
            && Emitted(p.h, p.s, it.regs, it.pos) == [row] + Emitted(p.h, p.s, it'.regs, it'.pos)
            && Rows(p.h, p.s, it.regs, it.pos) == Prepend([row], Rows(p.h, p.s, it'.regs, it'.pos))
  {
    hide ToRow, RowOps, Emitted, RowsAfter;
    ToRowIsRowOps(p, fs, it.regs, it.pos);
    RowsByRow(p, it.regs, it.pos);
    EmittedByRow(p, it.regs, it.pos);
  }

  lemma RowsInCons(e: Entry, es: seq<Entry>)
    ensures RowsIn([e] + es) == [e.row] + RowsIn(es)
  {
    assert ([e] + es)[1..] == es;
  }

  /** Incrementing row by row yields the rows of the one-pass execution: as long as increments
      return, the k-th entry is the k-th row emitted, and a pass that comes to the end has
      yielded them all. */
  lemma {:induction false} EntriesAreRows(p: Program, fs: Files, it: Iter)
    requires p.Valid()
    ensures var pass := Yield(p, fs, it);
            && RowsIn(pass.entries) <= Emitted(p.h, p.s, it.regs, it.pos)
            && (pass.end.Value? ==> Rows(p.h, p.s, it.regs, it.pos) == Value(RowsIn(pass.entries)))
    decreases |p.s.data| - it.pos
  {
    hide NextEntry, Emitted, RowsAfter;
    if it.pos < |p.s.data| {
      hide Yield, Rows;
      var n := NextEntry(p, fs, it);
      YieldStep(p, fs, it);
      if n.out.Value? {
        NextEntryRow(p, fs, it);
        EntriesAreRows(p, n.files, n.out.value);
        RowsInCons(n.out.value.entry.value, Yield(p, n.files, n.out.value).entries);
      }
    }
  }

  /** A pass yields the same rows and files whatever other iterators have done before: what
      it yields with a shorter file list it yields with any longer one. */
  lemma {:induction false} SameEntries(p: Program, base: Files, a: Files, ka: nat, b: Files, kb: nat, it: Iter, j: nat)
    requires Stands(p, base, a, ka, it.pos, j) && HoldsFirst(p, base, b, kb) && ka <= kb
    requires p.Valid()
    ensures Yield(p, a, it).entries <= Yield(p, b, it).entries
    ensures Yield(p, a, it).end.Value? ==> Yield(p, b, it) == Yield(p, a, it)
    decreases |p.s.data| - it.pos
  {
    hide NextEntry, Stands, HoldsFirst;
    if it.pos < |p.s.data| && NextEntry(p, a, it).out.Value? {
      NextEntryMoves(p, a, it);
      NextEntryMoves(p, b, it);
      var ka', kb', j' := NextSame(p, base, a, ka, b, kb, it, j);
      SameEntries(p, base, NextEntry(p, a, it).files, ka', NextEntry(p, b, it).files, kb',
                  NextEntry(p, a, it).out.value, j');
    }
  }

  // The loops.  An iterator equals end() as soon as its position is the end of the section.

  /** What the body of `for (auto &ent : table)` sees, and how the loop ends. */
  datatype Visit = Visit(files: Files, seen: seq<Entry>, end: Outcome<()>)

  /** The loop from an iterator on: nothing once the iterator equals the end, else its entry
      and what follows. */
  function VisitFrom(p: Program, fs: Files, it: Iter): Visit
    requires p.Valid() && (it.pos < |p.s.data| ==> it.entry.Some?)
    decreases |p.s.data| - it.pos
  {
    if it.pos >= |p.s.data| then Visit(fs, [], Value(()))
    else
      NextEntryMoves(p, fs, it);
      var n := NextEntry(p, fs, it);
      match n.out
      case Throw(e) => Visit(n.files, [it.entry.value], Throw(e))
      case Value(it') =>
        var rest := VisitFrom(p, n.files, it');
        rest.(seen := [it.entry.value] + rest.seen)
  }

  function Loop(p: Program, fs: Files): Visit
    requires p.Valid()
  {
    var b := Begin(p, fs);
    match b.out
    case Throw(e) => Visit(b.files, [], Throw(e))
    case Value(it) => if p.start >= |p.s.data| then Visit(b.files, [], Value(())) else LoopFrom(p, fs, b.files, it)
  }

  function LoopFrom(p: Program, fs: Files, files: Files, it: Iter): Visit
    requires p.Valid() && p.start < |p.s.data| && Begin(p, fs).out == Value(it)
  {
    NextEntryMoves(p, fs, Start(p));
    VisitFrom(p, files, it)
  }

  /** All entries but the last. */
  ghost function Visible(es: seq<Entry>): seq<Entry> {
    if es == [] then [] else es[..|es| - 1]
  }

  /** Of a pass that comes to the end, a loop does not see the last entry; of one that throws,
      it has seen all there were. */
  ghost function Seen(es: seq<Entry>, end: Outcome<()>): seq<Entry> {
    if end.Value? then Visible(es) else es
  }

  lemma SeenCons(e: Entry, es: seq<Entry>, end: Outcome<()>)
    requires es != []
    ensures Seen([e] + es, end) == [e] + Seen(es, end)
  {
    assert ([e] + es)[..|es|] == [e] + es[..|es| - 1];
  }

  lemma {:induction false} VisitSees(p: Program, fs: Files, it: Iter)
    requires p.Valid() && it.entry.Some?
    ensures var pass, v := Yield(p, fs, it), VisitFrom(p, fs, it);
            v.end == pass.end && v.seen == Seen([it.entry.value] + pass.entries, pass.end)
    decreases |p.s.data| - it.pos
  {
    hide NextEntry, Yield;
    YieldAtEnd(p, fs, it);
    if it.pos < |p.s.data| {
      YieldStep(p, fs, it);
      var n := NextEntry(p, fs, it);
      if n.out.Value? {
        var pass := Yield(p, n.files, n.out.value);
        VisitSees(p, n.files, n.out.value);
        SeenCons(it.entry.value, [n.out.value.entry.value] + pass.entries, pass.end);
      }
    }
  }

  lemma YieldAtEnd(p: Program, fs: Files, it: Iter)
    requires p.Valid()
    ensures it.pos >= |p.s.data| ==> Yield(p, fs, it) == Pass([], Value(()))
  {
  }

  /** So a loop over a table sees every row but the last one - for one sequence, all but its
      end-of-sequence row.  A loop that ends sees them all only if there are none; one that
      throws has seen all the rows that could be read. */
  lemma LoopSeesAllButLast(p: Program, fs: Files)
    requires p.Valid()
    ensures var pass, v := Yield(p, fs, Start(p)), Loop(p, fs);
            && v.end == pass.end
            && v.seen == Seen(pass.entries, pass.end)
            && (v.end.Value? ==> (v.seen == pass.entries <==> p.start == |p.s.data|))
  {
    hide NextEntry, Yield;
    YieldAtEnd(p, fs, Start(p));
    if p.start < |p.s.data| {
      YieldStep(p, fs, Start(p));
      var b := Begin(p, fs);
      if b.out.Value? {
        VisitSees(p, b.files, b.out.value);
      }
    } else {
      AtEndStays(p, fs, Start(p));
    }
  }

  /** Row i is the one that covers the address: it does not end a sequence, and the next row
      starts past the address. */
  predicate Covers(es: seq<Entry>, i: nat, addr: u64) {
    i + 1 < |es| && es[i].row.address <= addr < es[i + 1].row.address && !es[i].row.endSequence
  }

  /** The search loop: `prev` is the entry before `it`. */
  function FindFrom(p: Program, fs: Files, prev: Entry, it: Iter, addr: u64): (Files, Outcome<Option<Entry>>)
    requires p.Valid() && (it.pos < |p.s.data| ==> it.entry.Some?)
    decreases |p.s.data| - it.pos
  {
    if it.pos >= |p.s.data| then (fs, Value(None))
    else if Covers([prev, it.entry.value], 0, addr) then (fs, Value(Some(prev)))
    else
      NextEntryMoves(p, fs, it);
      var n := NextEntry(p, fs, it);
      match n.out
      case Throw(e) => (n.files, Throw(e))
      case Value(it') => FindFrom(p, n.files, it.entry.value, it', addr)
  }

  /** The first covering row among those given. */
  ghost function FirstCovering(es: seq<Entry>, addr: u64): Option<Entry> {
    if |es| < 2 then None
    else if Covers(es, 0, addr) then Some(es[0])
    else FirstCovering(es[1..], addr)
  }

  /** The row found, or how the loop ended without one. */
  ghost function Answer(found: Option<Entry>, end: Outcome<()>): Outcome<Option<Entry>> {
    if found.Some? then Value(found)
    else if end.Throw? then Throw(end.error)
    else Value(None)
  }

  lemma {:induction false} FindFromFindsFirst(p: Program, fs: Files, prev: Entry, it: Iter, addr: u64)
    requires p.Valid() && it.entry.Some?
    ensures var pass := Yield(p, fs, it);
            FindFrom(p, fs, prev, it, addr).1 ==
            Answer(FirstCovering(Seen([prev] + ([it.entry.value] + pass.entries), pass.end), addr), pass.end)
    decreases |p.s.data| - it.pos
  {
    hide NextEntry, Yield, Seen;
    var cur := it.entry.value;
    YieldAtEnd(p, fs, it);
    SeenTwo(prev, cur);
    if it.pos < |p.s.data| {
      YieldStep(p, fs, it);
      var n := NextEntry(p, fs, it);
      if n.out.Value? {
        var pass := Yield(p, n.files, n.out.value);
        var later := [n.out.value.entry.value] + pass.entries;
        SeenCons(prev, [cur] + later, pass.end);
        SeenCons(cur, later, pass.end);
        CoveringCons(prev, cur, Seen(later, pass.end), addr);
        FindFromFindsFirst(p, n.files, cur, n.out.value, addr);
      } else {
        CoveringCons(prev, cur, [], addr);
        FirstCoveringFew(addr);
      }
    } else {
      FirstCoveringFew(addr);
    }
  }

  lemma SeenTwo(prev: Entry, cur: Entry)
    ensures Seen([prev] + ([cur] + []), Value(())) == [prev]
    ensures forall e :: Seen([prev] + ([cur] + []), Throw(e)) == [prev] + ([cur] + [])
  {
  }

  lemma CoveringCons(prev: Entry, cur: Entry, later: seq<Entry>, addr: u64)
    ensures var es := [prev] + ([cur] + later);
            FirstCovering(es, addr) ==
            if Covers([prev, cur], 0, addr) then Some(prev) else FirstCovering([cur] + later, addr)
  {
    var es := [prev] + ([cur] + later);
    assert es[1..] == [cur] + later;
    assert Covers(es, 0, addr) == Covers([prev, cur], 0, addr);
  }

  lemma {:induction false} FirstCoveringMeans(es: seq<Entry>, addr: u64)
    ensures match FirstCovering(es, addr)
            case None => forall i :: 0 <= i < |es| ==> !Covers(es, i, addr)
            case Some(e) =>
              exists i :: 0 <= i < |es| && es[i] == e && Covers(es, i, addr) &&
                          forall j :: 0 <= j < i ==> !Covers(es, j, addr)
  {
    if |es| >= 2 && !Covers(es, 0, addr) {
      var rest := es[1..];
      FirstCoveringMeans(rest, addr);
      assert forall i :: 0 <= i < |rest| ==> (Covers(rest, i, addr) <==> Covers(es, i + 1, addr));
      match FirstCovering(rest, addr)
      case None =>
        forall i | 0 <= i < |es|
          ensures !Covers(es, i, addr)
        {
          assert i > 0 ==> Covers(rest, i - 1, addr) == Covers(es, i, addr);
        }
      case Some(e) =>
        var i :| 0 <= i < |rest| && rest[i] == e && Covers(rest, i, addr) &&
                 forall j :: 0 <= j < i ==> !Covers(rest, j, addr);
        assert es[i + 1] == e && Covers(es, i + 1, addr);
        forall j | 0 <= j < i + 1
          ensures !Covers(es, j, addr)
        {
          assert j > 0 ==> Covers(rest, j - 1, addr) == Covers(es, j, addr);
        }
    }
  }

  // The same loops on the objects.

  method BeginIterator(t: LineTable) returns (it: LineIterator, r: Outcome<()>)
    requires t.p.Valid()
    modifies t
    ensures fresh(it) && it.table == t
    ensures t.State() == Begin(t.p, old(t.State())).files
    ensures match Begin(t.p, old(t.State())).out
            case Throw(e) => r == Throw(e)
            case Value(i) => r == Value(()) && it.View() == i
  {
    it := new LineIterator(t, t.p.start);
    r := it.Increment();
  }

  /** `it == end()`: the positions agree. */
  predicate AtEnd(it: LineIterator)
    reads it
  {
    it.pos >= |it.table.p.s.data|
  }

  /** `find_address` on values: the files read meanwhile, and what it returns or throws. */
  function Lookup(p: Program, fs: Files, addr: u64): (Files, Outcome<Option<Entry>>)
    requires p.Valid()
  {
    var first := Begin(p, fs);
    match first.out
    case Throw(e) => (first.files, Throw(e))
    case Value(it) =>
      if it.pos >= |p.s.data| then (first.files, Value(None))
      else
        NextEntryMoves(p, fs, Start(p));
        NextEntryMoves(p, first.files, it);
        var second := NextEntry(p, first.files, it);
        match second.out
        case Throw(e) => (second.files, Throw(e))
        case Value(next) => FindFrom(p, second.files, it.entry.value, next, addr)
  }

  /** It finds the first covering row among those a loop sees, even if reading on would throw;
      without one it ends as the loop does. */
  lemma LookupFindsFirst(p: Program, fs: Files, addr: u64)
    requires p.Valid()
    ensures var pass := Yield(p, fs, Start(p));
            Lookup(p, fs, addr).1 == Answer(FirstCovering(Seen(pass.entries, pass.end), addr), pass.end)
  {
    hide NextEntry, FirstCovering, Yield;
    FirstCoveringFew(addr);
    YieldAtEnd(p, fs, Start(p));
    if p.start >= |p.s.data| {
      AtEndStays(p, fs, Start(p));
    } else {
      YieldStep(p, fs, Start(p));
      var first := Begin(p, fs);
      if first.out.Value? {
        var it := first.out.value;
        YieldAtEnd(p, first.files, it);
        assert [it.entry.value] + [] == [it.entry.value];
        if it.pos < |p.s.data| {
          YieldStep(p, first.files, it);
          var second := NextEntry(p, first.files, it);
          if second.out.Value? {
            FindFromFindsFirst(p, second.files, it.entry.value, second.out.value, addr);
          }
        }
      }
    }
  }

  /** In plain terms: the row found is the first of those seen that starts at or before the
      address, does not end a sequence, and is followed by one that starts past the address; only
      when there is none is the lookup's result the end of the loop. */
  lemma LookupIs(p: Program, fs: Files, addr: u64)
    requires p.Valid()
    ensures var pass := Yield(p, fs, Start(p));
            var seen, r := Seen(pass.entries, pass.end), Lookup(p, fs, addr).1;
            && (forall i, k :: 0 <= i && k == i + 1 && k < |seen|
                  && seen[i].row.address <= addr && addr < seen[k].row.address && !seen[i].row.endSequence
                  && (forall j, l :: 0 <= j < i && l == j + 1 ==>
                        seen[j].row.address > addr || addr >= seen[l].row.address || seen[j].row.endSequence)
                  ==> r == Value(Some(seen[i])))
            && (r == (if pass.end.Throw? then Throw(pass.end.error) else Value(None)) <==>
                forall i, k :: 0 <= i && k == i + 1 && k < |seen| ==>
                  seen[i].row.address > addr || addr >= seen[k].row.address || seen[i].row.endSequence)
  {
    hide Yield, Lookup, Seen, FirstCovering;
    var pass := Yield(p, fs, Start(p));
    var seen := Seen(pass.entries, pass.end);
    LookupFindsFirst(p, fs, addr);
    FirstCoveringMeans(seen, addr);
    forall i, k | 0 <= i && k == i + 1 && k < |seen|
      ensures Covers(seen, i, addr) <==>
              !(seen[i].row.address > addr || addr >= seen[k].row.address || seen[i].row.endSequence)
    {
    }
  }

  /** `find_address`. */
  method FindAddress(t: LineTable, addr: u64) returns (r: Outcome<Option<Entry>>)
    requires t.p.Valid()
    modifies t
    ensures (t.State(), r) == Lookup(t.p, old(t.State()), addr)
  {
    hide NextEntry;
    if t.p.start < |t.p.s.data| {
      NextEntryMoves(t.p, t.State(), Start(t.p));
    } else {
      AtEndStays(t.p, t.State(), Start(t.p));
    }
    var it, ok := BeginIterator(t);
    var _ :- ok;
    if AtEnd(it) {
      return Value(None);
    }
    var prev := it.View();
    NextEntryMoves(t.p, t.State(), it.View());
    var _ :- it.Increment();
    while !AtEnd(it)
      invariant fresh(it) && it.table == t && prev.entry.Some? && it.View().entry.Some?
      invariant FindFrom(t.p, t.State(), prev.entry.value, it.View(), addr) ==
                Lookup(t.p, old(t.State()), addr)
      decreases |t.p.s.data| - it.pos
    {
      var cur := it.View();
      if prev.entry.value.row.address <= addr && cur.entry.value.row.address > addr &&
         !prev.entry.value.row.endSequence {
        return Value(prev.entry);
      }
      NextEntryMoves(t.p, t.State(), cur);
      var _ :- it.Increment();
      prev := cur;
    }
    return Value(None);
  }

  lemma FirstCoveringFew(addr: u64)
    ensures FirstCovering([], addr) == None
    ensures forall e :: FirstCovering([e], addr) == None
    ensures forall e :: Visible([e]) == []
  {
  }

  /** `get_file`: force the whole program through if the index is not known yet. */
  method GetFile(t: LineTable, index: u32) returns (r: Outcome<File>)
    requires t.p.Valid()
    modifies t
    ensures index < |old(t.names)| ==> r == Value(old(t.names)[index]) && t.State() == old(t.State())
    ensures index >= |old(t.names)| ==>
      t.State() == (if old(t.complete) then old(t.State()) else Forced(t.p, old(t.State())).0) &&
      match (if old(t.complete) then Value(()) else Forced(t.p, old(t.State())).1)
      case Throw(e) => r == Throw(e)
      case Value(_) => r == if index < |t.names| then Value(t.names[index]) else Throw(OutOfRange)
  {
    hide NextEntry;
    if index >= |t.names| {
      if !t.complete {
        var it, ok := BeginIterator(t);
        var _ :- ok;
        while !AtEnd(it)
          invariant fresh(it) && it.table == t
          invariant Drain(t.p, t.State(), it.View()) == Forced(t.p, old(t.State()))
          decreases |t.p.s.data| - it.pos
        {
          NextEntryMoves(t.p, t.State(), it.View());
          var _ :- it.Increment();
        }
      }
      if index >= |t.names| {
        return Throw(OutOfRange);
      }
    }
    return Value(t.names[index]);
  }

  /** Increment an iterator to the end. */
  function Drain(p: Program, fs: Files, it: Iter): (Files, Outcome<()>)
    requires p.Valid()
    decreases |p.s.data| - it.pos
  {
    if it.pos >= |p.s.data| then (fs, Value(()))
    else
      NextEntryMoves(p, fs, it);
      var n := NextEntry(p, fs, it);
      match n.out
      case Throw(e) => (n.files, Throw(e))
      case Value(it') => Drain(p, n.files, it')
  }

  /** A loop over the whole table, for its effect on the file list. */
  function Forced(p: Program, fs: Files): (Files, Outcome<()>)
    requires p.Valid()
  {
    var b := Begin(p, fs);
    match b.out
    case Throw(e) => (b.files, Throw(e))
    case Value(it) => Drain(p, b.files, it)
  }

  /** Draining an iterator that stands after j entries leaves every entry in the list. */
  lemma {:induction false} DrainHolds(p: Program, base: Files, fs: Files, k: nat, it: Iter, j: nat)
    returns (k': nat)
    requires Stands(p, base, fs, k, it.pos, j)
    ensures p.Valid() && HoldsFirst(p, base, Drain(p, fs, it).0, k')
    ensures Drain(p, fs, it).1.Value? ==> k' == |AllDefs(p)|
    decreases |p.s.data| - it.pos
  {
    hide NextEntry, HoldsFirst, Passed;
    StandsParts(p, base, fs, k, it.pos, j);
    k' := k;
    if it.pos < |p.s.data| {
      var j';
      k', j' := NextHolds(p, base, fs, k, it, j);
      var n := NextEntry(p, fs, it);
      if n.out.Value? {
        NextEntryMoves(p, fs, it);
        k' := DrainHolds(p, base, n.files, k', n.out.value, j');
      }
    }
  }

  /** The full file table: what the header gave and every entry of the program. */
  function FullTable(p: Program, base: Files): seq<File>
    requires p.Valid()
  {
    base.names + FilesOf(p.dirs, AllDefs(p))
  }

  /** Whatever iterators did before, looking up an index gives the full table's file: at once
      if the list reaches it, else after one forced pass, unless that pass throws. */
  lemma GetFileAnswers(p: Program, base: Files, fs: Files, k: nat, index: nat)
    requires p.Valid() && HoldsFirst(p, base, fs, k)
    ensures index < |fs.names| ==>
      index < |FullTable(p, base)| && fs.names[index] == FullTable(p, base)[index]
    ensures fs.complete ==> fs.names == FullTable(p, base)
    ensures Forced(p, fs).1.Value? ==> Forced(p, fs).0.names == FullTable(p, base)
  {
    hide NextEntry, Drain, FilesOf;
    assert AllDefs(p)[..|AllDefs(p)|] == AllDefs(p);
    FilesPrefix(p.dirs, AllDefs(p), k, |AllDefs(p)|);
    StartStands(p, base, fs, k);
    var k', j' := NextHolds(p, base, fs, k, Start(p), 0);
    var b := Begin(p, fs);
    if b.out.Value? {
      k' := DrainHolds(p, base, b.files, k', b.out.value, j');
    }
  }

  /** From a table's creation on, whatever iterators are made and stepped in whatever order: the
      file list then gives, for every index it reaches, the file of the full table - the implicit
      entry, the header's, and the program's - and a forced pass that returns completes it. */
  lemma FilesAlways(p: Program, implicit: File, ts: seq<FileText>, pos: nat, actions: seq<Action>, index: nat)
    requires p.Valid() && forall i :: 0 <= i < |ts| ==> Listable(p.dirs, ts[i])
    requires At(p.s.data, pos, EncodeFiles(ts)) && pos + |EncodeFiles(ts)| <= p.start
    ensures var made := ReadFiles(p, Files([implicit], 0, false), p.s, pos).0;
            var fs := Play(p, World(made, []), actions).files;
            var full := [implicit] + Paths(p.dirs, ts) + FilesOf(p.dirs, AllDefs(p));
            && (index < |fs.names| ==> index < |full| && fs.names[index] == full[index])
            && (fs.complete ==> fs.names == full)
            && (Forced(p, fs).1.Value? ==> Forced(p, fs).0.names == full)
  {
    hide ReadFiles, Play, Forced, HoldsFirst, Listable, Paths, FilesOf, At, EncodeFiles;
    var base := HeaderHolds(p, implicit, ts, pos);
    var k := AnyInterleaving(p, base, World(base, []), 0, actions);
    GetFileAnswers(p, base, Play(p, World(base, []), actions).files, k, index);
  }

  /** The full table in plain terms: after what the header gave, each of the program's entries in
      order adds its file - an absolute name, or the directory's and its own - or nothing if its
      directory does not exist. */
  lemma FullTableAt(p: Program, base: Files, k: nat)
    requires p.Valid() && k < |AllDefs(p)|
    ensures var t, full := AllDefs(p)[k].text, FullTable(p, base);
            var at := |base.names| + |FilesOf(p.dirs, AllDefs(p)[..k])|;
            var after := |base.names| + |FilesOf(p.dirs, AllDefs(p)[..k + 1])|;
            && base.names <= full && after <= |full|
            && if t.name != [] && t.name[0] == 0x2f then
                 after == at + 1 && full[at] == File(t.name, t.mtime, t.length)
               else if t.dir < |p.dirs| then
                 after == at + 1 && full[at] == File(p.dirs[t.dir] + t.name, t.mtime, t.length)
               else after == at
  {
    hide FilesOf, Defs;
    var all := AllDefs(p);
    assert all[..|all|] == all;
    FilesOfOneMore(p.dirs, all, k);
    FilesPrefix(p.dirs, all, k + 1, |all|);
  }

  /** An increment that returns shows the row with the full table's file of its own index. */
  lemma NextFile(p: Program, base: Files, fs: Files, k: nat, it: Iter, j: nat)
    requires Stands(p, base, fs, k, it.pos, j) && p.Valid() && it.pos < |p.s.data|
    requires NextEntry(p, fs, it).out.Value?
    ensures var e := NextEntry(p, fs, it).out.value.entry;
            e.Some? && e.value.row.fileIndex < |FullTable(p, base)| &&
            e.value.file == FullTable(p, base)[e.value.row.fileIndex]
  {
    hide ToRow, FilesOf, Defs, Passed;
    var k', j' := NextHolds(p, base, fs, k, it, j);
    assert AllDefs(p)[..|AllDefs(p)|] == AllDefs(p);
    FilesPrefix(p.dirs, AllDefs(p), k', |AllDefs(p)|);
  }

  /** So does every entry of a pass. */
  lemma {:induction false} YieldFiles(p: Program, base: Files, fs: Files, k: nat, it: Iter, j: nat)
    requires Stands(p, base, fs, k, it.pos, j) && p.Valid()
    ensures forall e :: e in Yield(p, fs, it).entries ==>
      e.row.fileIndex < |FullTable(p, base)| && e.file == FullTable(p, base)[e.row.fileIndex]
    decreases |p.s.data| - it.pos
  {
    hide NextEntry, Stands, FullTable;
    YieldAtEnd(p, fs, it);
    if it.pos < |p.s.data| {
      hide Yield;
      YieldStep(p, fs, it);
      var n := NextEntry(p, fs, it);
      if n.out.Value? {
        NextFile(p, base, fs, k, it, j);
        var k', j' := NextHolds(p, base, fs, k, it, j);
        YieldFiles(p, base, n.files, k', n.out.value, j');
      }
    }
  }
}
