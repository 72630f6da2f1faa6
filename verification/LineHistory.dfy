/** The registers without the machine: each field of a row read off the opcodes executed so
    far, with the numbers of sections 6.2.2 and 6.2.5 of DWARF Version 4. */
module LineHistory {
  import opened Outcomes
  import opened Words
  import opened Sections
  import opened LineMachine
  import opened LineEncode
  import opened LineTables
  import Leb128

  // Each field looks back from the last opcode to the one that decides it.

  function Before(ops: seq<Op>): seq<Op>
    requires ops != []
  {
    ops[..|ops| - 1]
  }

  function Last(ops: seq<Op>): Op
    requires ops != []
  {
    ops[|ops| - 1]
  }

  function FileAt(ops: seq<Op>): u32 {
    if ops == [] then 1
    else match Last(ops) case SetFile(n) => n % 0x1_0000_0000 case EndSequence => 1 case _ => FileAt(Before(ops))
  }

  function ColumnAt(ops: seq<Op>): u32 {
    if ops == [] then 0
    else match Last(ops) case SetColumn(n) => n % 0x1_0000_0000 case EndSequence => 0 case _ => ColumnAt(Before(ops))
  }

  function IsaAt(ops: seq<Op>): u32 {
    if ops == [] then 0
    else match Last(ops) case SetIsa(n) => n % 0x1_0000_0000 case EndSequence => 0 case _ => IsaAt(Before(ops))
  }

  /** Lines are counted from 1, by sums without a bound. */
  function LineAt(h: Header, ops: seq<Op>): int
    requires h.Valid()
  {
    if ops == [] then 1
    else
      match Last(ops)
      case AdvanceLine(n) => LineAt(h, Before(ops)) + n
      case Special(opcode) =>
        LineAt(h, Before(ops)) + h.lineBase + ((opcode - h.opcodeBase) % 256) % h.lineRange
      case EndSequence => 1
      case _ => LineAt(h, Before(ops))
  }

  function StmtAt(h: Header, ops: seq<Op>): bool {
    if ops == [] then h.defaultIsStmt
    else
      match Last(ops)
      case NegateStmt => !StmtAt(h, Before(ops))
      case EndSequence => h.defaultIsStmt
      case _ => StmtAt(h, Before(ops))
  }

  /** Whether the opcode has occurred since the last row. */
  function SinceRow(ops: seq<Op>, op: Op): bool {
    ops != [] && (Last(ops) == op || (!Emits(Last(ops)) && SinceRow(Before(ops), op)))
  }

  function DiscriminatorAt(ops: seq<Op>): u32 {
    if ops == [] then 0
    else
      match Last(ops)
      case SetDiscriminator(n) => n % 0x1_0000_0000
      case Copy | Special(_) | EndSequence => 0
      case _ => DiscriminatorAt(Before(ops))
  }

  /** Operations advanced over since the address was last set, or moved by a number of bytes. */
  function StepsAt(h: Header, ops: seq<Op>): nat
    requires h.Valid()
  {
    if ops == [] then 0
    else
      match Last(ops)
      case SetAddress(_) | FixedAdvancePc(_) | EndSequence => 0
      case _ => Counted(StepsAt(h, Before(ops)), StepsOf(h, Last(ops)), h.maxOps)
  }

  /** n more steps - or, where they and the operation index of the place together come to 2^64,
      2^64 fewer. */
  function Counted(steps: nat, n: u64, maxOps: nat): nat
    requires maxOps > 0
  {
    RemainderBelow(steps, maxOps);
    if steps % maxOps + n < 0x1_0000_0000_0000_0000 then steps + n else steps + n - 0x1_0000_0000_0000_0000
  }

  function StepsOf(h: Header, op: Op): (n: u64)
    requires h.Valid()
  {
    match op
    case AdvancePc(n) => n
    case Special(opcode) =>
      QuotientBound((opcode - h.opcodeBase) % 256, h.lineRange);
      ((opcode - h.opcodeBase) % 256) / h.lineRange
    case ConstAddPc =>
      QuotientBound(255 - h.opcodeBase, h.lineRange);
      (255 - h.opcodeBase) / h.lineRange
    case _ => 0
  }

  /** Where those operations are counted from. */
  function AnchorAt(h: Header, ops: seq<Op>): int
    requires h.Valid()
    decreases |ops|, 0
  {
    if ops == [] then 0
    else
      match Last(ops)
      case SetAddress(a) => a
      case FixedAdvancePc(n) => AddressAt(h, Before(ops)) + n
      case EndSequence => 0
      case _ => AnchorAt(h, Before(ops))
  }

  /** The address without a bound: an instruction for every `maxOps` operations. */
  function AddressAt(h: Header, ops: seq<Op>): int
    requires h.Valid()
    decreases |ops|, 1
  {
    AnchorAt(h, ops) + h.minInst * (StepsAt(h, ops) / h.maxOps)
  }

  /** The place that one list of opcodes has come to, with the flags that another has set. */
  function Shown(h: Header, place: seq<Op>, ops: seq<Op>, end: bool): Regs
    requires h.Valid()
  {
    Regs(AddressAt(h, place) % 0x1_0000_0000_0000_0000, StepsAt(h, place) % h.maxOps, FileAt(ops),
         LineAt(h, place) % 0x1_0000_0000, ColumnAt(ops), StmtAt(h, ops),
         SinceRow(ops, SetBasicBlock), end, SinceRow(ops, SetPrologueEnd), SinceRow(ops, SetEpilogueBegin),
         IsaAt(ops), DiscriminatorAt(ops))
  }

  /** A copy shows what came before it; a special opcode its own advance, too; and an
      end_sequence that the sequence ends. */
  function RowsAt(h: Header, ops: seq<Op>): seq<Regs>
    requires h.Valid()
  {
    if ops == [] then []
    else
      RowsAt(h, Before(ops)) +
      match Last(ops)
      case Copy => [Shown(h, Before(ops), Before(ops), false)]
      case Special(_) => [Shown(h, ops, Before(ops), false)]
      case EndSequence => [Shown(h, Before(ops), Before(ops), true)]
      case _ => []
  }

  lemma NothingShown(h: Header)
    requires h.Valid()
    ensures Shown(h, [], [], false) == Initial(h.defaultIsStmt)
  {
    FreshPlace(h, []);
  }

  /** Advancing the place reached by so many steps. */
  lemma PlaceAdvances(h: Header, r: Regs, anchor: int, steps: nat, n: u64)
    requires h.Valid() && r.opIndex == steps % h.maxOps
    requires r.address == (anchor + h.minInst * (steps / h.maxOps)) % B64
    ensures var after := Counted(steps, n, h.maxOps);
            Advance(h, r, n, B64) ==
            r.(address := (anchor + h.minInst * (after / h.maxOps)) % B64, opIndex := after % h.maxOps)
  {
    hide Advance;
    if r.opIndex + n < B64 {
      PlaceForward(h, r, anchor, steps, n);
    } else {
      RemainderBelow(steps, h.maxOps);
      AdvanceWraps(h, r, n);
      StepBack(steps, h.maxOps, B64 - n);
    }
  }

  lemma PlaceForward(h: Header, r: Regs, anchor: int, steps: nat, n: nat)
    requires h.Valid() && r.opIndex == steps % h.maxOps && r.opIndex + n < B64
    requires r.address == (anchor + h.minInst * (steps / h.maxOps)) % B64
    ensures Advance(h, r, n, B64) ==
            r.(address := (anchor + h.minInst * ((steps + n) / h.maxOps)) % B64, opIndex := (steps + n) % h.maxOps)
  {
    hide Advance, LineMachine.Moved;
    AdvanceIs(h, r, n);
    DivideInTwo(steps, n, h.maxOps);
    AddressMoves(anchor, h.minInst, steps / h.maxOps, (r.opIndex + n) / h.maxOps);
  }

  /** An advance that wraps moves back within the instruction. */
  lemma AdvanceWraps(h: Header, r: Regs, n: u64)
    requires h.Valid() && r.opIndex < h.maxOps && r.opIndex + n >= B64
    ensures Advance(h, r, n, B64) == r.(opIndex := r.opIndex + n - B64)
  {
    var ops := r.opIndex + n - B64;
    WrapsTo(r.opIndex + n, ops);
    DivModUnique(ops, h.maxOps, 0, ops);
    MovedNowhere(r.address, h.minInst);
  }

  lemma WrapsTo(x: nat, y: nat)
    requires x == y + B64 && y < B64
    ensures x % B64 == y
  {
    DivModUnique(x, B64, 1, y);
  }

  lemma StepBack(steps: nat, m: nat, k: nat)
    requires m > 0 && k <= steps % m <= steps
    ensures (steps - k) / m == steps / m && (steps - k) % m == steps % m - k
  {
    ModSplit(steps, m);
    DivModUnique(steps - k, m, steps / m, steps % m - k);
  }

  lemma AddressMoves(anchor: int, minInst: nat, p: int, q: int)
    ensures LineMachine.Moved((anchor + minInst * p) % B64, minInst, q) == (anchor + minInst * (p + q)) % B64
  {
    Distribute(minInst, p, q);
    SumMoves(anchor, minInst * p, minInst * q);
  }

  lemma SumMoves(anchor: int, a: int, b: int)
    ensures Wrap64((anchor + a) % B64 + b % B64) == (anchor + (a + b)) % B64
  {
    ModAdd(anchor + a, b % B64, B64);
    ModAdd(anchor + a, b, B64);
  }

  lemma LineAdds(x: int, n: int)
    ensures Wrap32(x % 0x1_0000_0000 + n) == (x + n) % 0x1_0000_0000
  {
    ModAdd(x, n, B32);
  }

  lemma BytesAdd(x: int, n: int)
    ensures Wrap64(x % 0x1_0000_0000_0000_0000 + n) == (x + n) % 0x1_0000_0000_0000_0000
  {
    ModAdd(x, n, B64);
  }

  /** The row of a special opcode: line and place advanced, the rest as before. */
  lemma SpecialRow(h: Header, ops: seq<Op>, opcode: byte)
    requires h.Valid()
    ensures var before, after := Shown(h, ops, ops, false), ops + [Special(opcode)];
            Advance(h, before.(line := Wrap32(before.line + SpecialLines(h, opcode))), SpecialOps(h, opcode), B32)
            == Shown(h, after, ops, false)
  {
    hide Advance, FileAt, ColumnAt, IsaAt, StmtAt, AnchorAt, SpecialOps, Wrap32, SinceRow, DiscriminatorAt;
    var before, after := Shown(h, ops, ops, false), ops + [Special(opcode)];
    assert Before(after) == ops && Last(after) == Special(opcode);
    LooksBack(h, after);
    SpecialLine(h, ops, opcode);
    var lined := before.(line := LineAt(h, after) % 0x1_0000_0000);
    SpecialOpsBound(h, opcode);
    SpecialSteps(h, opcode);
    StepIndex(h, ops);
    NarrowAdvance(h, lined, SpecialOps(h, opcode));
    PlaceAdvances(h, lined, AnchorAt(h, ops), StepsAt(h, ops), SpecialOps(h, opcode));
  }

  lemma SpecialLine(h: Header, ops: seq<Op>, opcode: byte)
    requires h.Valid()
    ensures Wrap32(LineAt(h, ops) % 0x1_0000_0000 + SpecialLines(h, opcode)) ==
            LineAt(h, ops + [Special(opcode)]) % 0x1_0000_0000
  {
    var after := ops + [Special(opcode)];
    assert Before(after) == ops && Last(after) == Special(opcode);
    LineAdds(LineAt(h, ops), SpecialLines(h, opcode));
  }

  lemma SpecialSteps(h: Header, opcode: byte)
    requires h.Valid()
    ensures SpecialOps(h, opcode) == StepsOf(h, Special(opcode))
  {
  }

  lemma SpecialStep(h: Header, ops: seq<Op>, opcode: byte)
    requires h.Valid()
    ensures var before, after := Shown(h, ops, ops, false), ops + [Special(opcode)];
            && Apply(h, before, Special(opcode)).regs == Shown(h, after, after, false)
            && RowsOf(Apply(h, before, Special(opcode))) == [Shown(h, after, ops, false)]
  {
    hide Advance, FileAt, ColumnAt, IsaAt, StmtAt, AnchorAt, AddressAt, LineAt, StepsAt, SpecialOps, SpecialLines;
    var after := ops + [Special(opcode)];
    assert Before(after) == ops && Last(after) == Special(opcode);
    LooksBack(h, after);
    SpecialRow(h, ops, opcode);
  }

  lemma StepIndex(h: Header, ops: seq<Op>)
    requires h.Valid()
    ensures Shown(h, ops, ops, false).opIndex < h.maxOps
  {
  }

  /** Fields an opcode does not decide are those before it. */
  lemma LooksBack(h: Header, ops: seq<Op>)
    requires h.Valid() && ops != []
    ensures !Last(ops).SetFile? && !Last(ops).EndSequence? ==> FileAt(ops) == FileAt(Before(ops))
    ensures !Last(ops).SetColumn? && !Last(ops).EndSequence? ==> ColumnAt(ops) == ColumnAt(Before(ops))
    ensures !Last(ops).SetIsa? && !Last(ops).EndSequence? ==> IsaAt(ops) == IsaAt(Before(ops))
    ensures !Last(ops).NegateStmt? && !Last(ops).EndSequence? ==> StmtAt(h, ops) == StmtAt(h, Before(ops))
    ensures !Last(ops).SetAddress? && !Last(ops).FixedAdvancePc? && !Last(ops).EndSequence? ==>
      AnchorAt(h, ops) == AnchorAt(h, Before(ops)) &&
      StepsAt(h, ops) == Counted(StepsAt(h, Before(ops)), StepsOf(h, Last(ops)), h.maxOps)
    ensures !Last(ops).AdvanceLine? && !Last(ops).Special? && !Last(ops).EndSequence? ==>
      LineAt(h, ops) == LineAt(h, Before(ops))
    ensures !Last(ops).SetDiscriminator? && !Emits(Last(ops)) ==> DiscriminatorAt(ops) == DiscriminatorAt(Before(ops))
  {
    hide AddressAt, StepsOf, Counted;
  }

  /** So do the flags. */
  lemma FlagsBack(ops: seq<Op>)
    requires ops != []
    ensures !Last(ops).SetBasicBlock? && !Emits(Last(ops)) ==>
      SinceRow(ops, SetBasicBlock) == SinceRow(Before(ops), SetBasicBlock)
    ensures !Last(ops).SetPrologueEnd? && !Emits(Last(ops)) ==>
      SinceRow(ops, SetPrologueEnd) == SinceRow(Before(ops), SetPrologueEnd)
    ensures !Last(ops).SetEpilogueBegin? && !Emits(Last(ops)) ==>
      SinceRow(ops, SetEpilogueBegin) == SinceRow(Before(ops), SetEpilogueBegin)
  {
  }

  lemma AdvanceStep(h: Header, ops: seq<Op>, op: Op)
    requires h.Valid() && (op.AdvancePc? || op.ConstAddPc?)
    ensures Apply(h, Shown(h, ops, ops, false), op) == Quiet(Shown(h, ops + [op], ops + [op], false))
  {
    hide Advance, FileAt, ColumnAt, IsaAt, StmtAt, AnchorAt, StepsAt, LineAt, DiscriminatorAt, SinceRow, SpecialOps;
    var before, after := Shown(h, ops, ops, false), ops + [op];
    assert Before(after) == ops && Last(after) == op;
    LooksBack(h, after);
    FlagsBack(after);
    StepIndex(h, ops);
    ConstSteps(h);
    PlaceAdvances(h, before, AnchorAt(h, ops), StepsAt(h, ops), StepsOf(h, op));
  }

  lemma ConstSteps(h: Header)
    requires h.Valid()
    ensures SpecialOps(h, 255) == StepsOf(h, ConstAddPc) < 256
  {
    SpecialOpsBound(h, 255);
    SmallMod(255 - h.opcodeBase, 256);
  }

  lemma FreshPlace(h: Header, ops: seq<Op>)
    requires h.Valid() && StepsAt(h, ops) == 0
    ensures AddressAt(h, ops) == AnchorAt(h, ops) && 0 % h.maxOps == 0
  {
    DivModUnique(0, h.maxOps, 0, 0);
  }

  /** The opcodes that set the place outright. */
  lemma PlaceStep(h: Header, ops: seq<Op>, op: Op)
    requires h.Valid() && (op.SetAddress? || op.FixedAdvancePc?)
    ensures Apply(h, Shown(h, ops, ops, false), op) == Quiet(Shown(h, ops + [op], ops + [op], false))
  {
    hide FileAt, ColumnAt, IsaAt, StmtAt, LineAt, DiscriminatorAt, SinceRow;
    var after := ops + [op];
    assert Before(after) == ops && Last(after) == op;
    LooksBack(h, after);
    FlagsBack(after);
    FreshPlace(h, after);
    if op.FixedAdvancePc? {
      BytesAdd(AddressAt(h, ops), op.bytes);
    } else {
      SmallMod(op.address, B64);
    }
  }

  lemma LineStep(h: Header, ops: seq<Op>, n: int)
    requires h.Valid()
    ensures Apply(h, Shown(h, ops, ops, false), AdvanceLine(n)) ==
            Quiet(Shown(h, ops + [AdvanceLine(n)], ops + [AdvanceLine(n)], false))
  {
    hide FileAt, ColumnAt, IsaAt, StmtAt, AnchorAt, StepsAt, DiscriminatorAt, SinceRow;
    var after := ops + [AdvanceLine(n)];
    assert Before(after) == ops && Last(after) == AdvanceLine(n);
    LooksBack(h, after);
    FlagsBack(after);
    LineAdds(LineAt(h, ops), n);
  }

  /** The opcodes that change a field and no place. */
  lemma FieldStep(h: Header, ops: seq<Op>, op: Op)
    requires h.Valid()
    requires op.SetFile? || op.SetColumn? || op.SetIsa? || op.SetDiscriminator? || op.NegateStmt? ||
             op.SetBasicBlock? || op.SetPrologueEnd? || op.SetEpilogueBegin? || op.DefineFile?
    ensures Apply(h, Shown(h, ops, ops, false), op) == Quiet(Shown(h, ops + [op], ops + [op], false))
  {
    hide AnchorAt, StepsAt, LineAt, AddressAt;
    var after := ops + [op];
    assert Before(after) == ops && Last(after) == op;
    LooksBack(h, after);
    FlagsBack(after);
    SamePlace(h, after);
  }

  lemma SamePlace(h: Header, ops: seq<Op>)
    requires h.Valid() && ops != []
    requires !Last(ops).SetAddress? && !Last(ops).FixedAdvancePc? && !Last(ops).EndSequence?
    ensures StepsOf(h, Last(ops)) == 0 ==>
      AddressAt(h, ops) == AddressAt(h, Before(ops)) && StepsAt(h, ops) == StepsAt(h, Before(ops))
  {
    hide StepsOf;
    LooksBack(h, ops);
    StepIndex(h, Before(ops));
  }

  lemma CopyStep(h: Header, ops: seq<Op>)
    requires h.Valid()
    ensures Apply(h, Shown(h, ops, ops, false), Copy) ==
            Effect(Shown(h, ops + [Copy], ops + [Copy], false), Some(Shown(h, ops, ops, false)))
  {
    hide FileAt, ColumnAt, IsaAt, StmtAt, AnchorAt, LineAt, AddressAt, StepsAt;
    var after := ops + [Copy];
    assert Before(after) == ops && Last(after) == Copy;
    LooksBack(h, after);
    SamePlace(h, after);
  }

  lemma EndStep(h: Header, ops: seq<Op>)
    requires h.Valid()
    ensures Apply(h, Shown(h, ops, ops, false), EndSequence) ==
            Effect(Shown(h, ops + [EndSequence], ops + [EndSequence], false), Some(Shown(h, ops, ops, true)))
  {
    hide AddressAt;
    var after := ops + [EndSequence];
    assert Before(after) == ops && Last(after) == EndSequence;
    FreshPlace(h, after);
  }

  /** One more opcode. */
  lemma OneMore(h: Header, ops: seq<Op>, op: Op)
    requires h.Valid()
    ensures var before, after := Shown(h, ops, ops, false), ops + [op];
            && Apply(h, before, op).regs == Shown(h, after, after, false)
            && RowsAt(h, after) == RowsAt(h, ops) + RowsOf(Apply(h, before, op))
  {
    hide Apply, Shown;
    var after := ops + [op];
    assert Before(after) == ops && Last(after) == op;
    match op
    case Special(opcode) => SpecialStep(h, ops, opcode);
    case AdvancePc(_) | ConstAddPc => AdvanceStep(h, ops, op);
    case SetAddress(_) | FixedAdvancePc(_) => PlaceStep(h, ops, op);
    case AdvanceLine(n) => LineStep(h, ops, n);
    case Copy => CopyStep(h, ops);
    case EndSequence => EndStep(h, ops);
    case _ => FieldStep(h, ops, op);
  }

  /** The machine computes exactly what the opcodes so far say, in its registers and its rows. */
  lemma {:induction false} RunIsHistory(h: Header, ops: seq<Op>)
    requires h.Valid()
    ensures RunOps(h, Initial(h.defaultIsStmt), ops) == Run(RowsAt(h, ops), Shown(h, ops, ops, false))
    decreases |ops|
  {
    hide Apply, Shown, Initial;
    if ops == [] {
      NothingShown(h);
    } else {
      var before, r := Before(ops), Initial(h.defaultIsStmt);
      RunIsHistory(h, before);
      assert before + [Last(ops)] == ops;
      RunAppend(h, r, before, [Last(ops)]);
      RunOne(h, RunOps(h, r, before).regs, Last(ops));
      OneMore(h, before, Last(ops));
    }
  }

  /** So the bytes of any opcodes that end with a row are read and executed to the rows that
      the opcodes say. */
  lemma BytesAreHistory(p: Program, ops: seq<Op>)
    requires p.Valid() && |p.s.data| < B64 && AllEncodable(p.h, p.s, ops)
    requires At(p.s.data, p.start, EncodeOps(p.s, ops)) && p.start + |EncodeOps(p.s, ops)| == |p.s.data|
    requires ops != [] ==> Emits(Last(ops))
    ensures Rows(p.h, p.s, Start(p).regs, p.start) == Value(RowsAt(p.h, ops))
  {
    hide RunOps, Rows, RowsAt, EncodeOps, Encodable, Initial;
    RowsOfOps(p.h, p.s, Start(p).regs, ops, p.start);
    RunIsHistory(p.h, ops);
  }

  // The first row of a sequence, in bytes and numbers.

  lemma ThreeOps(h: Header, s: Section, r: Regs, a: Op, b: Op, c: Op)
    requires h.Valid()
    ensures var e1 := Apply(h, r, a);
            var e2 := Apply(h, e1.regs, b);
            RunOps(h, r, [a, b, c]).rows == RowsOf(e1) + RowsOf(e2) + RowsOf(Apply(h, e2.regs, c))
    ensures EncodeOps(s, [a, b, c]) == EncodeOp(s, a) + EncodeOp(s, b) + EncodeOp(s, c)
  {
    hide Apply, RowsOf, EncodeOp;
    assert [a, b, c][1..] == [b, c] && [b, c][1..] == [c] && [c][1..] == [];
    var e2 := Apply(h, Apply(h, r, a).regs, b);
    assert RunOps(h, e2.regs, [c]).rows == RowsOf(Apply(h, e2.regs, c)) + [];
    assert EncodeOps(s, [c]) == EncodeOp(s, c) + [];
    assert EncodeOps(s, [b, c]) == EncodeOp(s, b) + EncodeOps(s, [c]);
  }

  /** The standard opcodes in bytes (section 6.2.5.2). */
  lemma StandardBytes(s: Section, n: u64, i: int)
    ensures EncodeOp(s, AdvancePc(n)) == [2] + Leb128.EncodeUnsigned(n, 0)
    ensures EncodeOp(s, AdvanceLine(i)) == [3] + Leb128.EncodeSigned(i, 0)
    ensures EncodeOp(s, SetFile(n)) == [4] + Leb128.EncodeUnsigned(n, 0)
    ensures EncodeOp(s, SetColumn(n)) == [5] + Leb128.EncodeUnsigned(n, 0)
    ensures EncodeOp(s, FixedAdvancePc(n)) == [9] + EncodeFixed(s.ord, 2, n)
    ensures EncodeOp(s, SetIsa(n)) == [12] + Leb128.EncodeUnsigned(n, 0)
  {
    hide Leb128.EncodeUnsigned, Leb128.EncodeSigned, EncodeFixed;
  }

  lemma PlainBytes(s: Section)
    ensures EncodeOp(s, Copy) == [1] && EncodeOp(s, NegateStmt) == [6] && EncodeOp(s, SetBasicBlock) == [7]
    ensures EncodeOp(s, ConstAddPc) == [8] && EncodeOp(s, SetPrologueEnd) == [10]
    ensures EncodeOp(s, SetEpilogueBegin) == [11]
  {
    hide Leb128.EncodeUnsigned, Leb128.EncodeSigned, EncodeFixed;
  }

  /** The extended opcodes, with the length of what follows it (section 6.2.5.3). */
  lemma ExtendedBytes(s: Section, n: u64)
    ensures EncodeOp(s, EndSequence) == [0] + Leb128.EncodeUnsigned(1, 0) + [1]
    ensures EncodeOp(s, SetAddress(n)) ==
            [0] + Leb128.EncodeUnsigned(1 + s.addrSize, 0) + [2] + EncodeFixed(s.ord, s.addrSize, n)
    ensures var d := Leb128.EncodeUnsigned(n, 0);
            EncodeOp(s, SetDiscriminator(n)) == [0] + Leb128.EncodeUnsigned(1 + |d|, 0) + [4] + d
  {
    hide Leb128.EncodeUnsigned, EncodeFixed;
    EncodeFixedLength(s.ord, s.addrSize, n);
  }

  lemma OpBytes(h: Header, s: Section, n: int)
    requires h.opcodeBase > 3 && -B63 <= n < B63
    ensures EncodeOp(s, EndSequence) == [0, 1, 1] && Encodable(h, s, EndSequence)
    ensures EncodeOp(s, Copy) == [1] && Encodable(h, s, Copy)
    ensures EncodeOp(s, AdvanceLine(n)) == [3] + Leb128.EncodeSigned(n, 0) && Encodable(h, s, AdvanceLine(n))
  {
    assert Leb128.EncodeUnsigned(1, 0) == [1];
  }

  /** The first row of a sequence, and its end. */
  function FreshRow(isStmt: bool, n: int, end: bool): Regs {
    Regs(0, 0, 1, (1 + n) % 0x1_0000_0000, 0, isStmt, false, end, false, false, 0, 0)
  }

  lemma FreshSteps(h: Header, r: Regs, n: int)
    requires h.Valid()
    ensures var lined := Apply(h, Initial(h.defaultIsStmt), AdvanceLine(n)).regs;
            var copied := Apply(h, lined, Copy).regs;
            && RowsOf(Apply(h, Initial(h.defaultIsStmt), AdvanceLine(n))) == []
            && RowsOf(Apply(h, lined, Copy)) == [FreshRow(h.defaultIsStmt, n, false)]
            && RowsOf(Apply(h, copied, EndSequence)) == [FreshRow(h.defaultIsStmt, n, true)]
    ensures Apply(h, r, EndSequence).regs == Initial(h.defaultIsStmt)
    ensures RowsOf(Apply(h, r, EndSequence)) == [r.(endSequence := true)]
  {
    hide Advance, SpecialLines, SpecialOps;
  }

  /** advance_line n, copy, end_sequence: line 1 + n of file 1 at address 0, and the end. */
  lemma FirstRow(p: Program, n: int)
    requires p.Valid() && |p.s.data| < B64 && p.h.opcodeBase > 3 && -B63 <= n < B63
    requires var bytes := [3] + Leb128.EncodeSigned(n, 0) + [1] + [0, 1, 1];
             At(p.s.data, p.start, bytes) && p.start + |bytes| == |p.s.data|
    ensures Rows(p.h, p.s, Start(p).regs, p.start) ==
            Value([Regs(0, 0, 1, (1 + n) % 0x1_0000_0000, 0, p.h.defaultIsStmt, false, false, false, false, 0, 0),
                   Regs(0, 0, 1, (1 + n) % 0x1_0000_0000, 0, p.h.defaultIsStmt, false, true, false, false, 0, 0)])
  {
    hide Rows, At, RunOps, EncodeOps;
    hide Apply, RowsOf, Encodable, EncodeOp, Initial;
    ThreeOps(p.h, p.s, Start(p).regs, AdvanceLine(n), Copy, EndSequence);
    OpBytes(p.h, p.s, n);
    FreshSteps(p.h, Start(p).regs, n);
    var a, b := FreshRow(p.h.defaultIsStmt, n, false), FreshRow(p.h.defaultIsStmt, n, true);
    assert [] + [a] + [b] == [a, b];
    RowsOfOps(p.h, p.s, Start(p).regs, [AdvanceLine(n), Copy, EndSequence], p.start);
  }

  /** The same after an end_sequence, whatever the registers were. */
  lemma RowAfterEnd(h: Header, s: Section, r: Regs, pos: nat, n: int)
    requires h.Valid() && |s.data| < B64 && h.opcodeBase > 3 && -B63 <= n < B63
    requires var bytes := [0, 1, 1] + ([3] + Leb128.EncodeSigned(n, 0)) + [1];
             At(s.data, pos, bytes) && pos + |bytes| == |s.data|
    ensures Rows(h, s, r, pos) ==
            Value([r.(endSequence := true),
                   Regs(0, 0, 1, (1 + n) % 0x1_0000_0000, 0, h.defaultIsStmt, false, false, false, false, 0, 0)])
  {
    hide Rows, At, RunOps, EncodeOps;
    hide Apply, RowsOf, Encodable, EncodeOp, Initial;
    ThreeOps(h, s, r, EndSequence, AdvanceLine(n), Copy);
    OpBytes(h, s, n);
    FreshSteps(h, r, n);
    var a, b := r.(endSequence := true), FreshRow(h.defaultIsStmt, n, false);
    assert [a] + [] + [b] == [a, b];
    RowsOfOps(h, s, r, [EndSequence, AdvanceLine(n), Copy], pos);
  }
}
