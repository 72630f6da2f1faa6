/** What an increment of a line-table iterator throws, byte by byte. */
module LineErrors {
  import opened Outcomes
  import opened Words
  import opened Sections
  import opened LineMachine
  import opened LineEncode
  import opened LineTables
  import Leb128

  /** Extended opcodes of the user range are a runtime error, other unknown ones a format error. */
  lemma UnknownExtended(h: Header, s: Section, pos: nat, code: byte)
    requires h.Valid() && At(s.data, pos, [0, 1, code]) && code !in {1, 2, 3, 4}
    ensures code >= 0x80 ==> ReadOp(h, s, pos) == Throw(Runtime)
    ensures code < 0x80 ==> ReadOp(h, s, pos) == Throw(Format)
  {
    hide ReadUleb, ReadFixed, At;
    assert Leb128.EncodeUnsigned(1, 0) == [1];
    assert [0, 1, code] == [0] + ([1] + [code]);
    AtAppend(s.data, pos, [0], [1] + [code]);
    AtAppend(s.data, pos + 1, [1], [code]);
    OneByte(s, pos, 0);
    UlebRoundTrip(s, 1, 0, pos + 1);
    OneByte(s, pos + 2, code);
    SmallMod(0, 256);
    SmallMod(code, 256);
  }

  /** Opcodes that emit nothing and read no file entry, after which the program ends. */
  ghost predicate NoRow(ops: seq<Op>) {
    forall k :: 0 <= k < |ops| ==> !Emits(ops[k]) && !ops[k].DefineFile?
  }

  lemma {:induction false} NoRowToRow(p: Program, fs: Files, r: Regs, ops: seq<Op>, pos: nat)
    requires p.Valid() && |p.s.data| < B64 && AllEncodable(p.h, p.s, ops) && NoRow(ops)
    requires At(p.s.data, pos, EncodeOps(p.s, ops)) && pos + |EncodeOps(p.s, ops)| == |p.s.data|
    ensures var st := ToRow(p, fs, r, pos); st.files == fs && st.out.Value? && st.out.value.row == None
    decreases |ops|
  {
    hide ReadOp, Apply, EncodeOp, Encodable, At, DefAt, Note;
    if ops != [] {
      var op, n := ops[0], |EncodeOp(p.s, ops[0])|;
      AtAppend(p.s.data, pos, EncodeOp(p.s, op), EncodeOps(p.s, ops[1..]));
      OpRoundTrip(p.h, p.s, op, pos);
      ReadOpAdvances(p.h, p.s, pos);
      DefIsDecoded(p.h, p.s, pos);
      EmitsRow(p.h, r, op);
      NoRowToRow(p, fs, Apply(p.h, r, op).regs, ops[1..], pos + n);
    }
  }

  /** Opcodes after the last row, without another: a format error, and the files as they were. */
  lemma TrailingOpcodes(p: Program, fs: Files, it: Iter, ops: seq<Op>)
    requires p.Valid() && |p.s.data| < B64 && AllEncodable(p.h, p.s, ops) && NoRow(ops) && ops != []
    requires At(p.s.data, it.pos, EncodeOps(p.s, ops)) && it.pos + |EncodeOps(p.s, ops)| == |p.s.data|
    ensures NextEntry(p, fs, it) == Advanced(fs, Throw(Format))
  {
    hide ToRow, At, EncodeOp, AllEncodable, NoRow;
    SomeBytes(p.s, ops);
    NoRowToRow(p, fs, it.regs, ops, it.pos);
  }

  lemma SomeBytes(s: Section, ops: seq<Op>)
    requires ops != []
    ensures EncodeOps(s, ops) != []
  {
  }

  /** A row whose file is not in the list yet is a format error. */
  lemma NoSuchFile(p: Program, fs: Files, it: Iter)
    requires p.Valid() && p.h.opcodeBase > 1 && At(p.s.data, it.pos, [1])
    ensures var n := NextEntry(p, fs, it);
            n.out.Value? <==> it.regs.fileIndex < |fs.names|
    ensures NextEntry(p, fs, it).out.Throw? ==> NextEntry(p, fs, it).out == Throw(Format)
  {
    hide ReadFixed;
    OneByte(p.s, it.pos, 1);
    SmallMod(1, 256);
  }

  /** A define_file that has not been met before, of a relative name in a directory that does not
      exist, is a format error; it still counts as met. */
  lemma BadDirectory(p: Program, fs: Files, it: Iter, t: FileText)
    requires p.Valid() && |p.s.data| < B64 && At(p.s.data, it.pos, EncodeOp(p.s, DefineFile(t)))
    requires (forall i :: 0 <= i < |t.name| ==> t.name[i] != 0) && (t.name != [] ==> t.name[0] != 0x2f)
    requires t.dir >= |p.dirs| && fs.lastEnd < it.pos + |EncodeOp(p.s, DefineFile(t))|
    ensures NextEntry(p, fs, it) ==
            Advanced(fs.(lastEnd := it.pos + |EncodeOp(p.s, DefineFile(t))|), Throw(Format))
  {
    hide ReadOp, EncodeOp, At, DefAt, Apply;
    OpRoundTrip(p.h, p.s, DefineFile(t), it.pos);
    ReadOpAdvances(p.h, p.s, it.pos);
    DefIsDecoded(p.h, p.s, it.pos);
  }
}
