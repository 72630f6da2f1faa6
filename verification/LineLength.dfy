/** The length of an extended opcode: it bounds the operands, and skips nothing. */
module LineLengths {
  import opened Outcomes
  import opened Words
  import opened Sections
  import opened LineMachine
  import Leb128

  /** The next opcode is read where this one's length says it is exactly when the operands take
      one byte less than the length (the first is the opcode itself).  Shorter operands leave
      the surplus to be executed; longer ones are an error. */
  lemma ExtendedLands(h: Header, s: Section, pos: nat, length: u64, q: nat, sub: byte, op: Op, next: nat)
    requires h.Valid() && ReadFixed(s, 1, pos) == Value((0, pos + 1))
    requires ReadUleb(s, pos + 1) == Value((length, q)) && ReadFixed(s, 1, q) == Value((sub, q + 1))
    requires ReadExtended(s, sub, q + 1) == Value((op, next))
    ensures ReadOp(h, s, pos) == Value((op, q + length)) <==>
            next - (q + 1) == length - 1 && q + length < B64
    ensures q + length < B64 ==>
      ReadOp(h, s, pos) == if next - (q + 1) > length - 1 then Throw(Format) else Value((op, next))
  {
    hide ReadUleb, ReadExtended, ReadFixed;
    if q + length < B64 {
      SmallMod(q + length, B64);
    } else {
      WrapBelow(q + length);
    }
  }

  lemma WrapBelow(x: nat)
    requires x >= B64
    ensures Wrap64(x) < x
  {
  }

  /** An end_sequence whose length counts one byte of padding. */
  function Padded(padding: byte): seq<byte> {
    [0, 2, 1, padding]
  }

  lemma PaddedRead(h: Header, s: Section)
    requires h.Valid() && |s.data| == 4 && s.data[..3] == [0, 2, 1]
    ensures ReadFixed(s, 1, 0) == Value((0, 1)) && ReadUleb(s, 1) == Value((2, 2))
    ensures ReadFixed(s, 1, 2) == Value((1, 3)) && ReadExtended(s, 1, 3) == Value((EndSequence, 3))
    ensures ReadOp(h, s, 0) == Value((EndSequence, 3))
  {
    hide ReadUleb, ReadOp, ReadFixed;
    assert s.data[0] == s.data[..3][0] && s.data[1] == s.data[..3][1] && s.data[2] == s.data[..3][2];
    ReadsByte(s, 0);
    ReadsByte(s, 2);
    assert Leb128.EncodeUnsigned(2, 0) == [2];
    assert s.data[1..2] == [2];
    UlebRoundTrip(s, 2, 0, 1);
    ExtendedLands(h, s, 0, 2, 2, 1, EndSequence, 3);
  }

  /** The padding of such an opcode is executed: as DW_LNS_copy it emits a second row, although
      the opcode's length reaches the end of the program. */
  lemma PaddingIsExecuted(h: Header, s: Section)
    requires h.Valid() && h.opcodeBase > 0x01 && s.data == Padded(0x01)
    ensures var r := Initial(h.defaultIsStmt);
            Rows(h, s, r, 0) == Value([r.(endSequence := true), r])
  {
    hide ReadOp;
    var r := Initial(h.defaultIsStmt);
    assert s.data[..3] == [0, 2, 1];
    PaddedRead(h, s);
    CopyRead(h, s, 3);
    assert Rows(h, s, Cleared(r), 4) == Value([]);
    assert RowsAfter(h, s, r, 3) == Value([r] + []);
    assert [r] + [] == [r];
    var e := Apply(h, r, EndSequence);
    assert e == Effect(r, Some(r.(endSequence := true)));
    assert Rows(h, s, e.regs, 3) == Value([r]);
    assert RowsAfter(h, s, r, 0) == Value([r.(endSequence := true)] + [r]);
    assert [r.(endSequence := true)] + [r] == [r.(endSequence := true), r];
  }

  lemma CopyRead(h: Header, s: Section, pos: nat)
    requires h.Valid() && h.opcodeBase > 0x01 && pos < |s.data| && s.data[pos] == 0x01
    ensures ReadOp(h, s, pos) == Value((Copy, pos + 1))
  {
    hide ReadFixed;
    ReadsByte(s, pos);
  }
}
