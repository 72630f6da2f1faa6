/** The shared file list under any interleaving of iterators, and independence of the rows
    from it. */
module LineFiles {
  import opened Outcomes
  import opened Words
  import opened LineMachine
  import opened LineTables

  /** The define-file entries of a program from an offset on, in order.  Which opcodes are
      executed does not depend on the registers. */
  function Defs(p: Program, pos: nat): seq<Def>
    requires p.Valid()
    decreases |p.s.data| - pos
  {
    if pos >= |p.s.data| then []
    else
      Here(p, pos) +
      match ReadOp(p.h, p.s, pos)
      case Throw(_) => []
      case Value((_, next)) => ReadOpAdvances(p.h, p.s, pos); Defs(p, next)
  }

  function Here(p: Program, pos: nat): seq<Def> {
    match DefAt(p.h, p.s, pos)
    case None => []
    case Some(d) => [d]
  }

  /** The files of a list of entries; entries with a bad directory have none. */
  function FilesOf(dirs: seq<seq<byte>>, ds: seq<Def>): seq<File> {
    if ds == [] then []
    else
      FilesOf(dirs, ds[..|ds| - 1]) + FileOf(dirs, ds[|ds| - 1])
  }

  function FileOf(dirs: seq<seq<byte>>, d: Def): seq<File> {
    match Resolve(dirs, d.text)
    case None => []
    case Some(f) => [f]
  }

  ghost predicate Increasing(ds: seq<Def>, from: nat) {
    (ds != [] ==> ds[0].end > from) &&
    forall i, j :: 0 <= i < j < |ds| ==> ds[i].end < ds[j].end
  }

  lemma IncreasingCons(d: Def, ds: seq<Def>, from: nat)
    requires d.end > from && Increasing(ds, d.end)
    ensures Increasing([d] + ds, from)
  {
    var all := [d] + ds;
    forall i, j | 0 <= i < j < |all|
      ensures all[i].end < all[j].end
    {
      assert all[j] == ds[j - 1];
      assert i > 0 ==> all[i] == ds[i - 1];
    }
  }

  lemma IncreasingFrom(ds: seq<Def>, from: nat, lower: nat)
    requires Increasing(ds, from) && lower <= from
    ensures Increasing(ds, lower)
  {
  }

  lemma {:induction false} DefsIncrease(p: Program, pos: nat)
    requires p.Valid()
    ensures Increasing(Defs(p, pos), pos)
    decreases |p.s.data| - pos
  {
    hide ReadOp, DefAt, Increasing;
    NoDefs(pos);
    if pos < |p.s.data| {
      DefIsDecoded(p.h, p.s, pos);
      ReadOpAdvances(p.h, p.s, pos);
      DefsCases(p, pos);
      var op := ReadOp(p.h, p.s, pos);
      var rest := if op.Value? then Defs(p, op.value.1) else [];
      if op.Value? {
        DefsIncrease(p, op.value.1);
      }
      match DefAt(p.h, p.s, pos)
      case None =>
        if op.Value? {
          IncreasingFrom(rest, op.value.1, pos);
        }
      case Some(d) =>
        NoDefs(d.end);
        IncreasingCons(d, rest, pos);
    }
  }

  lemma NoDefs(from: nat)
    ensures Increasing([], from)
  {
  }

  lemma DefsCases(p: Program, pos: nat)
    requires p.Valid() && pos < |p.s.data|
    ensures var op := ReadOp(p.h, p.s, pos);
            var rest := if op.Value? then Defs(p, op.value.1) else [];
            Defs(p, pos) == match DefAt(p.h, p.s, pos) case None => rest case Some(d) => [d] + rest
  {
    hide ReadOp, DefAt;
    ReadOpAdvances(p.h, p.s, pos);
    var op := ReadOp(p.h, p.s, pos);
    var rest := if op.Value? then Defs(p, op.value.1) else [];
    assert [] + rest == rest;
  }

  /** The whole program's entries. */
  function AllDefs(p: Program): seq<Def>
    requires p.Valid()
  {
    Defs(p, p.start)
  }

  /** The file list holds the first k of the program's entries, after what the header gave. */
  ghost predicate HoldsFirst(p: Program, base: Files, fs: Files, k: nat) {
    p.Valid() && base.lastEnd <= p.start && k <= |AllDefs(p)| &&
    fs.names == base.names + FilesOf(p.dirs, AllDefs(p)[..k]) &&
    fs.lastEnd == (if k == 0 then base.lastEnd else AllDefs(p)[k - 1].end) &&
    (fs.complete ==> k == |AllDefs(p)|)
  }

  /** Execution that has come to `pos` has passed the first j of the program's entries. */
  ghost predicate Passed(p: Program, pos: nat, j: nat) {
    p.Valid() && p.start <= pos && j <= |AllDefs(p)| && Defs(p, pos) == AllDefs(p)[j..]
  }

  /** One opcode: the file list still holds a prefix, now at least through the entry passed. */
  lemma ExecHolds(p: Program, base: Files, fs: Files, k: nat, r: Regs, pos: nat, j: nat)
    returns (k': nat, j': nat)
    requires HoldsFirst(p, base, fs, k) && Passed(p, pos, j) && j <= k && pos < |p.s.data|
    ensures HoldsFirst(p, base, Exec(p, fs, r, pos).files, k') && k <= k'
    ensures Exec(p, fs, r, pos).files.complete == fs.complete
    ensures Exec(p, fs, r, pos).out.Value? ==>
      Passed(p, Exec(p, fs, r, pos).out.value.next, j') && j' <= k'
    ensures k' == Max(k, if DefAt(p.h, p.s, pos).Some? then j + 1 else j)
  {
    hide ReadOp, DefAt, Apply, Note;
    DefIsDecoded(p.h, p.s, pos);
    ReadOpAdvances(p.h, p.s, pos);
    DefsCases(p, pos);
    match DefAt(p.h, p.s, pos)
    case None =>
      k', j' := k, j;
    case Some(d) =>
      assert d == AllDefs(p)[j];
      k', j' := Max(k, j + 1), j + 1;
      NoteHolds(p, base, fs, k, d, j);
      var op := ReadOp(p.h, p.s, pos);
      assert op.Value? ==> Defs(p, op.value.1) == AllDefs(p)[j..][1..] == AllDefs(p)[j + 1..];
  }

  lemma FilesOfOneMore(dirs: seq<seq<byte>>, ds: seq<Def>, k: nat)
    requires k < |ds|
    ensures FilesOf(dirs, ds[..k + 1]) == FilesOf(dirs, ds[..k]) + FileOf(dirs, ds[k])
  {
    assert ds[..k + 1][..k] == ds[..k];
  }

  lemma NoteIs(dirs: seq<seq<byte>>, fs: Files, d: Def)
    ensures Note(dirs, fs, d.text, d.end).files ==
            if d.end <= fs.lastEnd then fs
            else fs.(names := fs.names + FileOf(dirs, d), lastEnd := d.end)
    ensures d.end <= fs.lastEnd ==> Note(dirs, fs, d.text, d.end).ok
    ensures d.end > fs.lastEnd ==> (Note(dirs, fs, d.text, d.end).ok <==> Resolve(dirs, d.text).Some?)
  {
    assert fs.names + [] == fs.names;
  }

  /** The ends tell whether an entry is among the first k. */
  lemma EndsTell(p: Program, base: Files, fs: Files, k: nat, j: nat)
    requires HoldsFirst(p, base, fs, k) && j < |AllDefs(p)|
    ensures AllDefs(p)[j].end <= fs.lastEnd <==> j < k
  {
    hide FilesOf, Defs;
    DefsIncrease(p, p.start);
    var all := AllDefs(p);
    assert forall i :: 0 < i < |all| ==> all[0].end < all[i].end;
  }

  lemma NoteHolds(p: Program, base: Files, fs: Files, k: nat, d: Def, j: nat)
    requires HoldsFirst(p, base, fs, k) && j < |AllDefs(p)| && j <= k && d == AllDefs(p)[j]
    ensures HoldsFirst(p, base, Note(p.dirs, fs, d.text, d.end).files, Max(k, j + 1))
    ensures Note(p.dirs, fs, d.text, d.end).files.complete == fs.complete
    ensures j < k ==> Note(p.dirs, fs, d.text, d.end) == Noted(fs, true)
  {
    hide Note, Defs, FileOf, AllDefs;
    EndsTell(p, base, fs, k, j);
    NoteIs(p.dirs, fs, d);
    FilesOfOneMore(p.dirs, AllDefs(p), j);
    NotedSame(p.dirs, fs, d);
  }

  lemma NotedSame(dirs: seq<seq<byte>>, fs: Files, d: Def)
    ensures d.end <= fs.lastEnd ==> Note(dirs, fs, d.text, d.end) == Noted(fs, true)
  {
  }

  /** Where an iterator stands: past the first j entries, all of them in the list. */
  ghost predicate Stands(p: Program, base: Files, fs: Files, k: nat, pos: nat, j: nat) {
    HoldsFirst(p, base, fs, k) && Passed(p, pos, j) && j <= k
  }

  /** The same for execution up to the next row. */
  lemma {:induction false} ToRowHolds(p: Program, base: Files, fs: Files, k: nat, r: Regs, pos: nat, j: nat)
    returns (k': nat, j': nat)
    requires Stands(p, base, fs, k, pos, j)
    ensures HoldsFirst(p, base, ToRow(p, fs, r, pos).files, k') && k <= k'
    ensures ToRow(p, fs, r, pos).out.Value? ==>
      Passed(p, ToRow(p, fs, r, pos).out.value.next, j') && j' <= k'
    decreases |p.s.data| - pos
  {
    hide Exec, HoldsFirst, Passed;
    if pos >= |p.s.data| {
      k', j' := k, j;
    } else {
      StandsParts(p, base, fs, k, pos, j);
      k', j' := ExecHolds(p, base, fs, k, r, pos, j);
      ExecAdvances(p, fs, r, pos);
      var st := Exec(p, fs, r, pos);
      if st.out.Value? && st.out.value.row == None {
        var k1, j1 := k', j';
        k', j' := ToRowHolds(p, base, st.files, k1, st.out.value.regs, st.out.value.next, j1);
      }
    }
  }

  lemma StandsParts(p: Program, base: Files, fs: Files, k: nat, pos: nat, j: nat)
    requires Stands(p, base, fs, k, pos, j)
    ensures p.Valid() && k <= |AllDefs(p)| && j <= |AllDefs(p)|
    ensures pos >= |p.s.data| ==> j == k == |AllDefs(p)|
  {
  }

  lemma CompleteHolds(p: Program, base: Files, fs: Files, k: nat, pos: nat, j: nat)
    requires Stands(p, base, fs, k, pos, j) && pos >= |p.s.data|
    ensures HoldsFirst(p, base, fs.(complete := true), k)
  {
    StandsParts(p, base, fs, k, pos, j);
  }

  /** `++` keeps the list a prefix, whether it returns or throws; when it returns, every
      entry the iterator has passed is in the list. */
  lemma NextHolds(p: Program, base: Files, fs: Files, k: nat, it: Iter, j: nat) returns (k': nat, j': nat)
    requires Stands(p, base, fs, k, it.pos, j)
    ensures HoldsFirst(p, base, NextEntry(p, fs, it).files, k') && k <= k'
    ensures NextEntry(p, fs, it).out.Value? ==>
      Stands(p, base, NextEntry(p, fs, it).files, k', NextEntry(p, fs, it).out.value.pos, j')
  {
    hide ToRow, HoldsFirst, Passed;
    StandsParts(p, base, fs, k, it.pos, j);
    k', j' := k, j;
    if it.pos < |p.s.data| {
      k', j' := ToRowHolds(p, base, fs, k, it.regs, it.pos, j);
      var st := ToRow(p, fs, it.regs, it.pos);
      if st.out.Value? && st.out.value.next >= |p.s.data| {
        CompleteHolds(p, base, st.files, k', st.out.value.next, j');
      }
    }
  }

  lemma StartStands(p: Program, base: Files, fs: Files, k: nat)
    requires HoldsFirst(p, base, fs, k)
    ensures Stands(p, base, fs, k, Start(p).pos, 0)
  {
  }

  // Any number of iterators of one table, stepped in any order.

  /** The shared list and the live iterators. */
  datatype World = World(files: Files, its: seq<Iter>)

  /** What a program does next: make an iterator, or increment one.  `left` is what the
      registers hold if the increment throws; the position is then unchanged. */
  datatype Action = NewIterator | Increment(i: nat, left: Regs)

  function Act(p: Program, w: World, a: Action): World
    requires p.Valid()
  {
    match a
    case NewIterator =>
      var n := Begin(p, w.files);
      World(n.files, if n.out.Value? then w.its + [n.out.value] else w.its)
    case Increment(i, left) =>
      if i >= |w.its| then w
      else
        var n := NextEntry(p, w.files, w.its[i]);
        World(n.files, w.its[i := if n.out.Value? then n.out.value else w.its[i].(regs := left)])
  }

  function Play(p: Program, w: World, actions: seq<Action>): World
    requires p.Valid()
    decreases |actions|
  {
    if actions == [] then w else Play(p, Act(p, w, actions[0]), actions[1..])
  }

  ghost predicate AllStand(p: Program, base: Files, w: World, k: nat) {
    HoldsFirst(p, base, w.files, k) &&
    forall i :: 0 <= i < |w.its| ==> Standing(p, base, w.files, k, w.its[i].pos)
  }

  ghost predicate Standing(p: Program, base: Files, fs: Files, k: nat, pos: nat) {
    exists j: nat :: Stands(p, base, fs, k, pos, j)
  }

  /** A longer prefix keeps every other iterator's entries. */
  lemma StandsWithMore(p: Program, base: Files, fs: Files, k: nat, pos: nat, j: nat, fs': Files, k': nat)
    requires Stands(p, base, fs, k, pos, j) && HoldsFirst(p, base, fs', k') && k <= k'
    ensures Stands(p, base, fs', k', pos, j)
  {
    hide HoldsFirst;
  }

  lemma OthersStand(p: Program, base: Files, w: World, k: nat, fs': Files, k': nat)
    requires AllStand(p, base, w, k) && HoldsFirst(p, base, fs', k') && k <= k'
    ensures AllStand(p, base, World(fs', w.its), k')
  {
    hide HoldsFirst, Stands;
    forall i | 0 <= i < |w.its|
      ensures Standing(p, base, fs', k', w.its[i].pos)
    {
      var j: nat :| Stands(p, base, w.files, k, w.its[i].pos, j);
      StandsWithMore(p, base, w.files, k, w.its[i].pos, j, fs', k');
    }
  }

  lemma ActHolds(p: Program, base: Files, w: World, k: nat, a: Action) returns (k': nat)
    requires AllStand(p, base, w, k) && p.Valid()
    ensures AllStand(p, base, Act(p, w, a), k') && k <= k'
  {
    hide HoldsFirst, Stands, NextEntry, Passed;
    match a
    case NewIterator =>
      var j': nat;
      StartStands(p, base, w.files, k);
      k', j' := NextHolds(p, base, w.files, k, Start(p), 0);
      OthersStand(p, base, w, k, Begin(p, w.files).files, k');
    case Increment(i, left) =>
      if i >= |w.its| {
        k' := k;
      } else {
        var j: nat :| Stands(p, base, w.files, k, w.its[i].pos, j);
        var j': nat;
        k', j' := NextHolds(p, base, w.files, k, w.its[i], j);
        OthersStand(p, base, w, k, NextEntry(p, w.files, w.its[i]).files, k');
      }
  }

  /** Whatever iterators are made and stepped, in whatever order, and even if some throw, the
      file list is what the header gave followed by the files of a prefix of the program's
      entries - each once, and at least those any live iterator has passed. */
  lemma {:induction false} AnyInterleaving(p: Program, base: Files, w: World, k: nat, actions: seq<Action>)
    returns (k': nat)
    requires AllStand(p, base, w, k) && p.Valid()
    ensures AllStand(p, base, Play(p, w, actions), k') && k <= k'
    ensures Play(p, w, actions).files.names == base.names + FilesOf(p.dirs, AllDefs(p)[..k'])
    decreases |actions|
  {
    hide AllStand, Act;
    if actions == [] {
      k' := k;
    } else {
      k' := ActHolds(p, base, w, k, actions[0]);
      k' := AnyInterleaving(p, base, Act(p, w, actions[0]), k', actions[1..]);
    }
    AllStandNames(p, base, Play(p, w, actions), k');
  }

  lemma AllStandNames(p: Program, base: Files, w: World, k: nat)
    requires AllStand(p, base, w, k)
    ensures p.Valid() && k <= |AllDefs(p)|
    ensures w.files.names == base.names + FilesOf(p.dirs, AllDefs(p)[..k])
  {
  }

  // Rows and files do not depend on how much of the list others have filled in.

  /** A shorter list's files are a prefix of a longer one's. */
  lemma {:induction false} FilesPrefix(dirs: seq<seq<byte>>, ds: seq<Def>, a: nat, b: nat)
    requires a <= b <= |ds|
    ensures FilesOf(dirs, ds[..a]) <= FilesOf(dirs, ds[..b])
    decreases b
  {
    if a < b {
      FilesOfOneMore(dirs, ds, b - 1);
      FilesPrefix(dirs, ds, a, b - 1);
    }
  }

  /** If an opcode executes with a shorter list, it does the same with a longer one. */
  lemma ExecSame(p: Program, base: Files, a: Files, ka: nat, b: Files, kb: nat, r: Regs, pos: nat, j: nat)
    requires Stands(p, base, a, ka, pos, j) && HoldsFirst(p, base, b, kb) && ka <= kb
    requires pos < |p.s.data| && Exec(p, a, r, pos).out.Value?
    ensures Exec(p, b, r, pos).out == Exec(p, a, r, pos).out
  {
    hide ReadOp, DefAt, Apply, Note;
    DefsCases(p, pos);
    match DefAt(p.h, p.s, pos)
    case None =>
    case Some(d) =>
      NoteHolds(p, base, a, ka, d, j);
      NoteHolds(p, base, b, kb, d, j);
      EndsTell(p, base, a, ka, j);
      EndsTell(p, base, b, kb, j);
      NoteIs(p.dirs, a, d);
      NoteIs(p.dirs, b, d);
  }

  lemma {:induction false} ToRowSame(
    p: Program, base: Files, a: Files, ka: nat, b: Files, kb: nat, r: Regs, pos: nat, j: nat)
    returns (ka': nat, kb': nat, j': nat)
    requires Stands(p, base, a, ka, pos, j) && HoldsFirst(p, base, b, kb) && ka <= kb
    requires ToRow(p, a, r, pos).out.Value?
    ensures ToRow(p, b, r, pos).out == ToRow(p, a, r, pos).out
    ensures Stands(p, base, ToRow(p, a, r, pos).files, ka', ToRow(p, a, r, pos).out.value.next, j')
    ensures HoldsFirst(p, base, ToRow(p, b, r, pos).files, kb') && ka' <= kb'
    decreases |p.s.data| - pos
  {
    hide Exec, HoldsFirst, Passed;
    StandsParts(p, base, a, ka, pos, j);
    if pos >= |p.s.data| {
      ka', kb', j' := ka, kb, j;
    } else {
      StandsWithMore(p, base, a, ka, pos, j, b, kb);
      ExecSame(p, base, a, ka, b, kb, r, pos, j);
      var jb;
      ka', j' := ExecHolds(p, base, a, ka, r, pos, j);
      kb', jb := ExecHolds(p, base, b, kb, r, pos, j);
      ExecAdvances(p, a, r, pos);
      var sa, sb := Exec(p, a, r, pos), Exec(p, b, r, pos);
      if sa.out.value.row == None {
        var m := sa.out.value;
        ka', kb', j' := ToRowSame(p, base, sa.files, ka', sb.files, kb', m.regs, m.next, j');
      }
    }
  }

  /** If `++` succeeds with a shorter file list, then with any longer one it yields the same
      iterator: the same row, and the same file for it. */
  lemma NextSame(p: Program, base: Files, a: Files, ka: nat, b: Files, kb: nat, it: Iter, j: nat)
    returns (ka': nat, kb': nat, j': nat)
    requires Stands(p, base, a, ka, it.pos, j) && HoldsFirst(p, base, b, kb) && ka <= kb
    requires NextEntry(p, a, it).out.Value?
    ensures NextEntry(p, b, it).out == NextEntry(p, a, it).out
    ensures Stands(p, base, NextEntry(p, a, it).files, ka', NextEntry(p, a, it).out.value.pos, j')
    ensures HoldsFirst(p, base, NextEntry(p, b, it).files, kb') && ka' <= kb'
  {
    hide ToRow, HoldsFirst, Passed;
    StandsParts(p, base, a, ka, it.pos, j);
    ka', kb', j' := ka, kb, j;
    if it.pos < |p.s.data| {
      ka', kb', j' := ToRowSame(p, base, a, ka, b, kb, it.regs, it.pos, j);
      var sa, sb := ToRow(p, a, it.regs, it.pos), ToRow(p, b, it.regs, it.pos);
      LookupSame(p, base, sa.files, ka', sb.files, kb', sa.out.value);
      if sa.out.value.next >= |p.s.data| {
        CompleteHolds(p, base, sa.files, ka', sa.out.value.next, j');
        StandsWithMore(p, base, sa.files, ka', sa.out.value.next, j', sb.files, kb');
        CompleteHolds(p, base, sb.files, kb', sa.out.value.next, j');
      }
    }
  }

  lemma LookupSame(p: Program, base: Files, a: Files, ka: nat, b: Files, kb: nat, m: Moved)
    requires HoldsFirst(p, base, a, ka) && HoldsFirst(p, base, b, kb) && ka <= kb
    requires Landed(p, a, m).out.Value?
    ensures Landed(p, b, m).out == Landed(p, a, m).out
  {
    FilesPrefix(p.dirs, AllDefs(p), ka, kb);
  }
}
