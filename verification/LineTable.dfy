/** The line table: its file list, which the header starts and iterators complete as they
    meet define-file opcodes, and iteration row by row. */
module LineTables {
  import opened Outcomes
  import opened Words
  import opened Sections
  import opened Cursors
  import opened LineMachine

  datatype File = File(path: seq<byte>, mtime: u64, length: u64)

  /** What the iterators of a table share: the files, the offset just past the last file
      entry taken into account, and whether all are known. */
  datatype Files = Files(names: seq<File>, lastEnd: nat, complete: bool)

  /** A line-number program: it runs from `start` to the end of the section. */
  datatype Program = Program(h: Header, s: Section, dirs: seq<seq<byte>>, start: nat) {
    ghost predicate Valid() {
      h.Valid() && start <= |s.data|
    }
  }

  /** The path of a file entry, if its directory exists. */
  function Resolve(dirs: seq<seq<byte>>, t: FileText): Option<File> {
    if t.name != [] && t.name[0] == 47 then Some(File(t.name, t.mtime, t.length))  // '/'
    else if t.dir < |dirs| then Some(File(dirs[t.dir] + t.name, t.mtime, t.length))
    else None
  }

  datatype Noted = Noted(files: Files, ok: bool)

  /** Take into account the file entry that ends at `end`, unless that was done before.  An
      entry with a bad directory counts as done. */
  function Note(dirs: seq<seq<byte>>, fs: Files, t: FileText, end: nat): Noted {
    if end <= fs.lastEnd then Noted(fs, true)
    else
      match Resolve(dirs, t)
      case None => Noted(fs.(lastEnd := end), false)
      case Some(f) => Noted(fs.(names := fs.names + [f], lastEnd := end), true)
  }

  /** A file entry and the offset after it. */
  datatype Def = Def(text: FileText, end: nat)

  /** The file entry read by the opcode at an offset, if it is a complete define-file. */
  function DefAt(h: Header, s: Section, pos: nat): Option<Def> {
    match ReadFixed(s, 1, pos)
    case Throw(_) => None
    case Value((opcode, p)) =>
      if opcode >= h.opcodeBase || opcode != 0 then None
      else
        match ReadUleb(s, p)
        case Throw(_) => None
        case Value((_, q)) =>
          match ReadFixed(s, 1, q)
          case Throw(_) => None
          case Value((sub, r)) =>
            if sub != 0x03 then None
            else
              match ReadFileText(s, r)
              case Throw(_) => None
              case Value((text, end)) => Some(Def(text, end))
  }

  /** A decoded define-file is the entry found there. */
  lemma DefIsDecoded(h: Header, s: Section, pos: nat)
    ensures match DefAt(h, s, pos)
            case Some(d) =>
              pos < d.end <= |s.data| &&
              (ReadOp(h, s, pos) == Throw(Format) ||
               ReadOp(h, s, pos) == Value((DefineFile(d.text), d.end)))
            case None => ReadOp(h, s, pos).Value? ==> !ReadOp(h, s, pos).value.0.DefineFile?
  {
    hide ReadUleb, ReadCstr, ReadAddress, ReadFixed;
    ReadsByte(s, pos);
    var length := ReadUleb(s, pos + 1);
    if length.Value? {
      ReadsByte(s, length.value.1);
    }
  }

  // Execution on values: the specification of the iterator.

  /** The effect on the file list of executing the opcode at an offset, whether or not the
      opcode is then found to be malformed. */
  function NoteAt(p: Program, fs: Files, pos: nat): Noted {
    match DefAt(p.h, p.s, pos)
    case None => Noted(fs, true)
    case Some(d) => Note(p.dirs, fs, d.text, d.end)
  }

  datatype Moved = Moved(regs: Regs, row: Option<Regs>, next: nat)

  /** New file list, and what the execution returned or threw. */
  datatype Step = Step(files: Files, out: Outcome<Moved>)

  /** One opcode. */
  function Exec(p: Program, fs: Files, r: Regs, pos: nat): Step
    requires p.Valid()
  {
    var noted := NoteAt(p, fs, pos);
    if !noted.ok then Step(noted.files, Throw(Format))
    else
      match ReadOp(p.h, p.s, pos)
      case Throw(e) => Step(noted.files, Throw(e))
      case Value((op, next)) =>
        var e := Apply(p.h, r, op);
        Step(noted.files, Value(Moved(e.regs, e.row, next)))
  }

  lemma ExecAdvances(p: Program, fs: Files, r: Regs, pos: nat)
    requires p.Valid()
    ensures var out := Exec(p, fs, r, pos).out; out.Value? ==> pos < out.value.next <= |p.s.data|
  {
    hide ReadOp, Apply, NoteAt;
    ReadOpAdvances(p.h, p.s, pos);
  }

  /** Opcodes until one emits a row, or the end. */
  function ToRow(p: Program, fs: Files, r: Regs, pos: nat): Step
    requires p.Valid()
    decreases |p.s.data| - pos
  {
    if pos >= |p.s.data| then Step(fs, Value(Moved(r, None, pos)))
    else
      var st := Exec(p, fs, r, pos);
      ExecAdvances(p, fs, r, pos);
      if st.out.Throw? || st.out.value.row.Some? then st
      else ToRow(p, st.files, st.out.value.regs, st.out.value.next)
  }

  /** An iterator: registers, offset of the next opcode, and the current entry with its file. */
  datatype Iter = Iter(regs: Regs, pos: nat, entry: Option<Entry>)

  datatype Entry = Entry(row: Regs, file: File)

  datatype Advanced = Advanced(files: Files, out: Outcome<Iter>)

  /** `++`. */
  function NextEntry(p: Program, fs: Files, it: Iter): Advanced
    requires p.Valid()
  {
    if it.pos >= |p.s.data| then Advanced(fs, Value(it))
    else
      var st := ToRow(p, fs, it.regs, it.pos);
      match st.out
      case Throw(e) => Advanced(st.files, Throw(e))
      case Value(m) => Landed(p, st.files, m)
  }

  /** The end of `++`: an entry must have been emitted, and its file must be known by now. */
  function Landed(p: Program, fs: Files, m: Moved): Advanced {
    if m.row == None then Advanced(fs, Throw(Format))
    else
      var fs' := if m.next >= |p.s.data| then fs.(complete := true) else fs;
      var row := m.row.value;
      if row.fileIndex < |fs'.names|
      then Advanced(fs', Value(Iter(m.regs, m.next, Some(Entry(row, fs'.names[row.fileIndex])))))
      else Advanced(fs', Throw(Format))
  }

  function Start(p: Program): Iter {
    Iter(Initial(p.h.defaultIsStmt), p.start, None)
  }

  /** `begin()`, whose constructor steps to the first entry. */
  function Begin(p: Program, fs: Files): Advanced
    requires p.Valid()
  {
    NextEntry(p, fs, Start(p))
  }

  lemma FileTextAdvances(s: Section, pos: nat)
    ensures ReadFileText(s, pos).Value? ==> pos < ReadFileText(s, pos).value.1 <= |s.data|
  {
  }

  /** The header's file entries, up to the empty name that ends them. */
  function ReadFiles(p: Program, fs: Files, s: Section, pos: nat): (Files, Outcome<nat>)
    decreases |s.data| - pos
  {
    match ReadCstr(s, pos)
    case Throw(e) => (fs, Throw(e))
    case Value((name, next)) =>
      if name == [] then (fs, Value(next))
      else
        FileTextAdvances(s, pos);
        match ReadFileText(s, pos)
        case Throw(e) => (fs, Throw(e))
        case Value((t, end)) =>
          var noted := Note(p.dirs, fs, t, end);
          if noted.ok then ReadFiles(p, noted.files, s, end) else (noted.files, Throw(Format))
  }

  class LineTable {
    const p: Program
    var names: seq<File>
    var lastEnd: nat
    var complete: bool

    constructor (p: Program)
      ensures this.p == p && names == [] && lastEnd == 0 && !complete
    {
      this.p := p;
      names, lastEnd, complete := [], 0, false;
    }

    function State(): Files
      reads this
    {
      Files(names, lastEnd, complete)
    }

    /** Read a file entry; in the header an empty name ends the list. */
    method ReadFileEntry(cur: Cursor, inHeader: bool) returns (r: Outcome<bool>)
      modifies this, cur`pos
      ensures match ReadCstr(cur.sec, old(cur.pos))
              case Throw(e) => r == Throw(e) && State() == old(State())
              case Value((name, next)) =>
                if inHeader && name == [] then
                  r == Value(false) && cur.pos == next && State() == old(State())
                else
                  match ReadFileText(cur.sec, old(cur.pos))
                  case Throw(e) => r == Throw(e) && State() == old(State())
                  case Value((t, end)) =>
                    var noted := Note(p.dirs, old(State()), t, end);
                    State() == noted.files &&
                    (if noted.ok then r == Value(true) && cur.pos == end else r == Throw(Format))
    {
      hide ReadCstr, ReadUleb;
      var name :- cur.Cstr();
      if inHeader && name == [] {
        return Value(false);
      }
      var dir :- cur.Uleb128();
      var mtime :- cur.Uleb128();
      var length :- cur.Uleb128();
      if cur.pos <= lastEnd {
        return Value(true);
      }
      lastEnd := cur.pos;
      if name != [] && name[0] == 47 {
        names := names + [File(name, mtime, length)];
      } else if dir < |p.dirs| {
        names := names + [File(p.dirs[dir] + name, mtime, length)];
      } else {
        return Throw(Format);
      }
      return Value(true);
    }

    /** The file list of the header. */
    method ReadHeaderFiles(cur: Cursor) returns (r: Outcome<()>)
      modifies this, cur`pos
      ensures State() == ReadFiles(p, old(State()), cur.sec, old(cur.pos)).0
      ensures match ReadFiles(p, old(State()), cur.sec, old(cur.pos)).1
              case Throw(e) => r == Throw(e)
              case Value(next) => r == Value(()) && cur.pos == next
    {
      hide ReadCstr, ReadFileText, Note;
      var more := true;
      while more
        invariant ReadFiles(p, old(State()), cur.sec, old(cur.pos)) ==
                  if more then ReadFiles(p, State(), cur.sec, cur.pos) else (State(), Value(cur.pos))
        decreases more, |cur.sec.data| - cur.pos
      {
        FileTextAdvances(cur.sec, cur.pos);
        NamedEntry(cur.sec, cur.pos);
        more :- ReadFileEntry(cur, true);
      }
      return Value(());
    }
  }

  /** An entry that is read is not past the end. */
  lemma NamedEntry(s: Section, pos: nat)
    ensures ReadCstr(s, pos).Throw? ==> ReadFileText(s, pos).Throw?
  {
  }

  class LineIterator {
    const table: LineTable
    var entry: Regs
    var file: Option<File>
    var regs: Regs
    var pos: nat

    /** An iterator before its first step. */
    constructor (table: LineTable, pos: nat)
      ensures this.table == table && this.pos == pos && file == None
      ensures regs == Initial(table.p.h.defaultIsStmt)
    {
      this.table, this.pos := table, pos;
      regs := Initial(table.p.h.defaultIsStmt);
      entry := Initial(table.p.h.defaultIsStmt);
      file := None;
    }

    function View(): Iter
      reads this
    {
      Iter(regs, pos, match file case None => None case Some(f) => Some(Entry(entry, f)))
    }

    /** Execute the next opcode; true if it added a row. */
    method StepOnce(cur: Cursor) returns (r: Outcome<bool>)
      requires table.p.Valid() && cur.sec == table.p.s
      modifies this`regs, this`entry, table, cur`pos
      ensures var st := Exec(table.p, old(table.State()), old(regs), old(cur.pos));
              table.State() == st.files &&
              match st.out
              case Throw(e) => r == Throw(e)
              case Value(m) =>
                r == Value(m.row.Some?) && regs == m.regs && cur.pos == m.next &&
                entry == (match m.row case None => old(entry) case Some(row) => row)
    {
      hide ReadUleb, ReadSleb, ReadFixed, ReadAddress, ReadCstr, Advance, Note, SpecialLines, SpecialOps;
      DefIsDecoded(table.p.h, table.p.s, cur.pos);
      var h := table.p.h;
      ReadsByte(table.p.s, cur.pos);
      var code: u64 :- cur.Fixed(1);
      var opcode := AsByte(code);
      if code >= h.opcodeBase {
        var line := Wrap32(regs.line + SpecialLines(h, opcode));
        regs := Advance(h, regs.(line := line), SpecialOps(h, opcode), B32);
        entry := regs;
        regs := Cleared(regs);
        return Value(true);
      } else if code != 0 {
        r := Standard(cur, opcode);
      } else {
        var length :- cur.Uleb128();
        var end := Wrap64(cur.pos + length);
        ReadsByte(table.p.s, cur.pos);
        var sub :- cur.Fixed(1);
        r := Extended(cur, AsByte(sub));
        if r.Value? && cur.pos > end {
          return Throw(Format);
        }
      }
    }

    method Standard(cur: Cursor, opcode: byte) returns (r: Outcome<bool>)
      requires table.p.Valid()
      modifies this`regs, this`entry, cur`pos
      ensures match ReadStandard(cur.sec, opcode, old(cur.pos))
              case Throw(e) => r == Throw(e)
              case Value((op, next)) =>
                var e := Apply(table.p.h, old(regs), op);
                r == Value(e.row.Some?) && regs == e.regs && cur.pos == next &&
                entry == (match e.row case None => old(entry) case Some(row) => row)
    {
      hide ReadUleb, ReadSleb, ReadFixed, Advance, SpecialOps;
      var h := table.p.h;
      match opcode {
        case 0x01 =>
          entry := regs;
          regs := Cleared(regs);
        case 0x02 =>
          var n :- cur.Uleb128();
          regs := Advance(h, regs, n, B64);
        case 0x03 =>
          var n :- cur.Sleb128();
          regs := regs.(line := Wrap32(regs.line + n));
        case 0x04 =>
          var n :- cur.Uleb128();
          regs := regs.(fileIndex := Wrap32(n));
        case 0x05 =>
          var n :- cur.Uleb128();
          regs := regs.(column := Wrap32(n));
        case 0x06 => regs := regs.(isStmt := !regs.isStmt);
        case 0x07 => regs := regs.(basicBlock := true);
        case 0x08 => regs := Advance(h, regs, SpecialOps(h, 255), B64);
        case 0x09 =>
          var n :- cur.Fixed(2);
          regs := regs.(address := Wrap64(regs.address + n), opIndex := 0);
        case 0x0a => regs := regs.(prologueEnd := true);
        case 0x0b => regs := regs.(epilogueBegin := true);
        case 0x0c =>
          var n :- cur.Uleb128();
          regs := regs.(isa := Wrap32(n));
        case _ => return Throw(Format);
      }
      return Value(opcode == 0x01);
    }

    method Extended(cur: Cursor, opcode: byte) returns (r: Outcome<bool>)
      requires table.p.Valid()
      modifies this`regs, this`entry, table, cur`pos
      ensures var noted :=
                if opcode != 0x03 then Noted(old(table.State()), true)
                else match ReadFileText(cur.sec, old(cur.pos))
                  case Throw(_) => Noted(old(table.State()), true)
                  case Value((t, end)) => Note(table.p.dirs, old(table.State()), t, end);
              table.State() == noted.files &&
              if !noted.ok then r == Throw(Format)
              else
                match ReadExtended(cur.sec, opcode, old(cur.pos))
                case Throw(e) => r == Throw(e)
                case Value((op, next)) =>
                  var e := Apply(table.p.h, old(regs), op);
                  r == Value(e.row.Some?) && regs == e.regs && cur.pos == next &&
                  entry == (match e.row case None => old(entry) case Some(row) => row)
    {
      hide ReadUleb, ReadAddress, ReadCstr, Note;
      match opcode {
        case 0x01 =>
          regs := regs.(endSequence := true);
          entry := regs;
          regs := Initial(table.p.h.defaultIsStmt);
        case 0x02 =>
          var a :- cur.Address();
          regs := regs.(address := a, opIndex := 0);
        case 0x03 =>
          var _ :- table.ReadFileEntry(cur, false);
        case 0x04 =>
          var n :- cur.Uleb128();
          regs := regs.(discriminator := Wrap32(n));
        case _ => return Throw(if opcode >= 0x80 then Runtime else Format);
      }
      return Value(opcode == 0x01);
    }

    /** `++`: the next row, its file looked up. */
    method Increment() returns (r: Outcome<()>)
      requires table.p.Valid()
      modifies this, table
      ensures var n := NextEntry(table.p, old(table.State()), old(View()));
              table.State() == n.files &&
              match n.out case Throw(e) => r == Throw(e) case Value(it) => r == Value(()) && View() == it
    {
      hide Exec;
      var cur := new Cursor(table.p.s, pos);
      var stepped, output := false, false;
      while !cur.End() && !output
        invariant fresh(cur) && cur.sec == table.p.s && pos == old(pos) && file == old(file)
        invariant stepped == (output || cur.pos > old(pos)) && (!stepped ==> cur.pos == old(pos))
        invariant !stepped ==> entry == old(entry)
        invariant ToRow(table.p, old(table.State()), old(regs), old(pos)) ==
                  if output then Step(table.State(), Value(Moved(regs, Some(entry), cur.pos)))
                  else ToRow(table.p, table.State(), regs, cur.pos)
        invariant !stepped ==> table.State() == old(table.State()) && regs == old(regs) && !output
        decreases |table.p.s.data| - cur.pos, !output
      {
        ExecAdvances(table.p, table.State(), regs, cur.pos);
        output :- StepOnce(cur);
        stepped := true;
      }
      if stepped && !output {
        return Throw(Format);
      }
      if stepped && cur.End() {
        table.complete := true;
      }
      if output {
        if entry.fileIndex < |table.names| {
          file := Some(table.names[entry.fileIndex]);
        } else {
          return Throw(Format);
        }
      }
      pos := cur.pos;
      return Value(());
    }
  }
}
