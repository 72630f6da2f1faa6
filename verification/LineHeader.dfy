/** The file list that the header gives a line table. */
module LineHeader {
  import opened Outcomes
  import opened Words
  import opened Sections
  import opened LineMachine
  import opened LineEncode
  import opened LineTables
  import opened LineFiles

  function EncodeFiles(ts: seq<FileText>): seq<byte> {
    if ts == [] then [0] else EncodeFileText(ts[0]) + EncodeFiles(ts[1..])
  }

  /** A header entry: a name that is not empty, and an absolute one or a directory that exists. */
  ghost predicate Listable(dirs: seq<seq<byte>>, t: FileText) {
    t.name != [] && (forall i :: 0 <= i < |t.name| ==> t.name[i] != 0) && (t.name[0] == 0x2f || t.dir < |dirs|)
  }

  /** A stored entry is read as it is, and adds one file: an absolute name by itself, any other
      after its directory.  One whose directory does not exist adds none and is an error. */
  lemma EntryAdded(p: Program, fs: Files, s: Section, t: FileText, pos: nat)
    requires (forall i :: 0 <= i < |t.name| ==> t.name[i] != 0) && At(s.data, pos, EncodeFileText(t))
    requires fs.lastEnd < pos + |EncodeFileText(t)|
    ensures var end := pos + |EncodeFileText(t)|;
            var noted := Note(p.dirs, fs, t, end);
            && ReadFileText(s, pos) == Value((t, end))
            && noted.files.lastEnd == end && noted.files.complete == fs.complete
            && if t.name != [] && t.name[0] == 0x2f then
                 noted.ok && noted.files.names == fs.names + [File(t.name, t.mtime, t.length)]
               else if t.dir < |p.dirs| then
                 noted.ok && noted.files.names == fs.names + [File(p.dirs[t.dir] + t.name, t.mtime, t.length)]
               else !noted.ok && noted.files.names == fs.names
  {
    hide ReadFileText, EncodeFileText, At;
    FileTextRoundTrip(s, t, pos);
  }

  function Paths(dirs: seq<seq<byte>>, ts: seq<FileText>): seq<File> {
    if ts == [] then []
    else
      (match Resolve(dirs, ts[0]) case None => [] case Some(f) => [f]) + Paths(dirs, ts[1..])
  }

  /** The header's files one by one. */
  lemma {:induction false} PathsAt(dirs: seq<seq<byte>>, ts: seq<FileText>, i: nat)
    requires i < |ts| && forall k :: 0 <= k < |ts| ==> Listable(dirs, ts[k])
    ensures |Paths(dirs, ts)| == |ts| && ts[i].name != [] && (ts[i].name[0] == 0x2f || ts[i].dir < |dirs|)
    ensures ts[i].name[0] == 0x2f ==> Paths(dirs, ts)[i] == File(ts[i].name, ts[i].mtime, ts[i].length)
    ensures ts[i].name[0] != 0x2f ==>
      Paths(dirs, ts)[i] == File(dirs[ts[i].dir] + ts[i].name, ts[i].mtime, ts[i].length)
    decreases |ts|
  {
    if |ts| > 1 {
      PathsAt(dirs, ts[1..], if i > 0 then i - 1 else 0);
    } else {
      assert ts[1..] == [];
    }
  }

  lemma NameFirst(s: Section, t: FileText, pos: nat)
    requires t.name != [] && forall i :: 0 <= i < |t.name| ==> t.name[i] != 0
    requires At(s.data, pos, EncodeFileText(t))
    ensures ReadCstr(s, pos).Value? && ReadCstr(s, pos).value.0 == t.name
  {
    hide ReadCstr;
    FileTextRoundTrip(s, t, pos);
  }

  lemma EndOfFiles(p: Program, fs: Files, s: Section, pos: nat)
    requires At(s.data, pos, [0])
    ensures ReadFiles(p, fs, s, pos) == (fs, Value(pos + 1))
  {
    CstrRoundTrip(s, [], pos);
  }

  /** The encoded header entries are read into the list, one file each, in order; the offset
      of the last one does not pass the end of the list. */
  lemma {:induction false} FilesRead(p: Program, fs: Files, s: Section, ts: seq<FileText>, pos: nat)
    requires forall i :: 0 <= i < |ts| ==> Listable(p.dirs, ts[i])
    requires At(s.data, pos, EncodeFiles(ts)) && fs.lastEnd <= pos
    ensures var r := ReadFiles(p, fs, s, pos);
            r.1 == Value(pos + |EncodeFiles(ts)|) && r.0.names == fs.names + Paths(p.dirs, ts) &&
            r.0.lastEnd < pos + |EncodeFiles(ts)| && r.0.complete == fs.complete
    decreases |ts|
  {
    hide ReadCstr, ReadFileText, EncodeFileText;
    if ts == [] {
      EndOfFiles(p, fs, s, pos);
      assert fs.names + Paths(p.dirs, ts) == fs.names;
    } else {
      var t := ts[0];
      AtAppend(s.data, pos, EncodeFileText(t), EncodeFiles(ts[1..]));
      NameFirst(s, t, pos);
      FileTextRoundTrip(s, t, pos);
      FileTextAdvances(s, pos);
      EntryAdded(p, fs, s, t, pos);
      var fs' := Note(p.dirs, fs, t, pos + |EncodeFileText(t)|).files;
      FilesRead(p, fs', s, ts[1..], pos + |EncodeFileText(t)|);
    }
  }

  /** So a table whose header lies before its program starts, before any iterator exists, with
      the implicit entry, then the header's, and none of the program's. */
  lemma HeaderHolds(p: Program, implicit: File, ts: seq<FileText>, pos: nat) returns (base: Files)
    requires p.Valid() && forall i :: 0 <= i < |ts| ==> Listable(p.dirs, ts[i])
    requires At(p.s.data, pos, EncodeFiles(ts)) && pos + |EncodeFiles(ts)| <= p.start
    ensures base == ReadFiles(p, Files([implicit], 0, false), p.s, pos).0
    ensures base.names == [implicit] + Paths(p.dirs, ts)
    ensures AllStand(p, base, World(base, []), 0)
  {
    base := ReadFiles(p, Files([implicit], 0, false), p.s, pos).0;
    FilesRead(p, Files([implicit], 0, false), p.s, ts, pos);
    assert FilesOf(p.dirs, AllDefs(p)[..0]) == [];
    assert base.names == base.names + [];
  }

  /** The list in plain terms: the implicit file, then for each entry of the header its name, if
      that is absolute, or else its directory's and its own, with its time and length. */
  lemma HeaderFile(p: Program, implicit: File, ts: seq<FileText>, pos: nat, i: nat)
    requires forall k :: 0 <= k < |ts| ==> Listable(p.dirs, ts[k])
    requires At(p.s.data, pos, EncodeFiles(ts)) && i < |ts|
    ensures var names, t := ReadFiles(p, Files([implicit], 0, false), p.s, pos).0.names, ts[i];
            && |names| == 1 + |ts| && names[0] == implicit
            && t.name != [] && (t.name[0] == 0x2f || t.dir < |p.dirs|)
            && names[1 + i] == File(if t.name[0] == 0x2f then t.name else p.dirs[t.dir] + t.name, t.mtime, t.length)
  {
    hide At, EncodeFiles, Paths, ReadFiles, Listable;
    FilesRead(p, Files([implicit], 0, false), p.s, ts, pos);
    PathsAt(p.dirs, ts, i);
  }
}
