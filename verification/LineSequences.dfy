/** Line tables of several sequences: where the sequences' address intervals do not overlap, in
    whatever order they stand, at most one row covers an address, and the lookup finds it. */
module LineSequences {
  import opened Outcomes
  import opened Words
  import opened LineMachine
  import opened LineTables
  import opened LineQueries

  /** Rows i to j belong to one sequence: none before j ends it. */
  ghost predicate Together(es: seq<Entry>, i: nat, j: nat) {
    forall k :: i <= k < j && k < |es| ==> !es[k].row.endSequence
  }

  /** First and last row of the sequence of row i. */
  function FirstOf(es: seq<Entry>, i: nat): (f: nat)
    requires i < |es|
    ensures f <= i && Together(es, f, i)
  {
    if i == 0 || es[i - 1].row.endSequence then i else FirstOf(es, i - 1)
  }

  function LastOf(es: seq<Entry>, i: nat): (l: nat)
    requires i < |es|
    ensures i <= l < |es| && Together(es, i, l)
    decreases |es| - i
  {
    if i + 1 == |es| || es[i].row.endSequence then i else LastOf(es, i + 1)
  }

  /** Addresses never decrease from a row to the next of the same sequence. */
  ghost predicate AscendsWithin(es: seq<Entry>) {
    forall i :: 0 < i < |es| && !es[i - 1].row.endSequence ==> es[i - 1].row.address <= es[i].row.address
  }

  /** The intervals of two sequences, each from its first row's address up to its last's, have
      no address in common. */
  ghost predicate Disjoint(es: seq<Entry>) {
    forall i, j :: 0 <= i < j < |es| && !Together(es, i, j) ==>
      es[LastOf(es, i)].row.address <= es[FirstOf(es, j)].row.address ||
      es[LastOf(es, j)].row.address <= es[FirstOf(es, i)].row.address
  }

  lemma {:induction false} SequenceSorted(es: seq<Entry>, i: nat, j: nat)
    requires AscendsWithin(es) && i <= j < |es| && Together(es, i, j)
    ensures es[i].row.address <= es[j].row.address
    decreases j
  {
    if i < j {
      SequenceSorted(es, i, j - 1);
    }
  }

  lemma LastOfNext(es: seq<Entry>, i: nat)
    requires i + 1 < |es| && !es[i].row.endSequence
    ensures LastOf(es, i) == LastOf(es, i + 1)
  {
  }

  /** A row that covers an address has it in its sequence's interval. */
  lemma CoverInside(es: seq<Entry>, addr: u64, i: nat)
    requires AscendsWithin(es) && Covers(es, i, addr)
    ensures es[FirstOf(es, i)].row.address <= addr < es[LastOf(es, i)].row.address
  {
    SequenceSorted(es, FirstOf(es, i), i);
    LastOfNext(es, i);
    SequenceSorted(es, i + 1, LastOf(es, i + 1));
  }

  lemma NoLaterCover(es: seq<Entry>, addr: u64, i: nat, j: nat)
    requires AscendsWithin(es) && Disjoint(es)
    requires Covers(es, i, addr) && i < j
    ensures !Covers(es, j, addr)
  {
    if Covers(es, j, addr) {
      if Together(es, i, j) {
        SequenceSorted(es, i + 1, j);
      } else {
        CoverInside(es, addr, i);
        CoverInside(es, addr, j);
      }
    }
  }

  /** With rows that ascend within each sequence, and sequences that do not overlap, only one
      row covers an address. */
  lemma CoverIsUnique(es: seq<Entry>, addr: u64, i: nat, j: nat)
    requires AscendsWithin(es) && Disjoint(es)
    requires Covers(es, i, addr) && Covers(es, j, addr)
    ensures i == j
  {
    if i < j {
      NoLaterCover(es, addr, i, j);
    } else if j < i {
      NoLaterCover(es, addr, j, i);
    }
  }

  /** A program that climbs has entries that ascend within each sequence. */
  lemma ClimbingAscends(p: Program, fs: Files)
    requires p.Valid() && Climbing(p.h, p.s, Start(p).regs, p.start)
    ensures AscendsWithin(Yield(p, fs, Start(p)).entries)
  {
    hide Yield, Emitted, Climbing, NextEntry;
    var es := Yield(p, fs, Start(p)).entries;
    var rows := Emitted(p.h, p.s, Start(p).regs, p.start);
    EntriesAreRows(p, fs, Start(p));
    RowsAscend(p.h, p.s, Start(p).regs, p.start);
    RowsInAt(es);
    forall i | 0 < i < |es| && !es[i - 1].row.endSequence
      ensures es[i - 1].row.address <= es[i].row.address
    {
      assert rows[i - 1] == RowsIn(es)[i - 1] && rows[i] == RowsIn(es)[i];
    }
  }

  /** What a loop sees of the entries is a prefix of them. */
  lemma SeenPrefix(es: seq<Entry>, end: Outcome<()>)
    ensures Seen(es, end) <= es
  {
  }

  /** So in a table whose rows ascend within each sequence - those of a climbing program do -
      and whose sequences do not overlap, a visible row that covers the address is the one
      `find_address` returns, and no other row covers it. */
  lemma LookupFindsOnly(p: Program, fs: Files, addr: u64, i: nat)
    requires p.Valid() && AscendsWithin(Yield(p, fs, Start(p)).entries)
    requires Disjoint(Yield(p, fs, Start(p)).entries)
    ensures var pass := Yield(p, fs, Start(p));
            var seen := Seen(pass.entries, pass.end);
            && (Covers(seen, i, addr) ==> Lookup(p, fs, addr).1 == Value(Some(seen[i])))
            && (Covers(seen, i, addr) ==> forall j: nat :: Covers(seen, j, addr) ==> j == i)
  {
    hide Yield, Lookup, FirstCovering, Disjoint, AscendsWithin, Seen;
    var pass := Yield(p, fs, Start(p));
    var seen := Seen(pass.entries, pass.end);
    LookupFindsFirst(p, fs, addr);
    FirstCoveringMeans(seen, addr);
    SeenPrefix(pass.entries, pass.end);
    if Covers(seen, i, addr) {
      forall j: nat | Covers(seen, j, addr)
        ensures j == i
      {
        CoversMore(seen, pass.entries, i, addr);
        CoversMore(seen, pass.entries, j, addr);
        CoverIsUnique(pass.entries, addr, i, j);
      }
    }
  }

  lemma CoversMore(seen: seq<Entry>, es: seq<Entry>, i: nat, addr: u64)
    requires seen <= es && Covers(seen, i, addr)
    ensures Covers(es, i, addr)
  {
  }
}
