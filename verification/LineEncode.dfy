/** An assembler for line-number programs: any list of rows, encoded with special opcodes
    where they fit and standard or extended opcodes otherwise, is executed back to exactly
    those rows. */
module LineEncode {
  import opened Outcomes
  import opened Words
  import opened Sections
  import opened LineMachine
  import Leb128

  /** The opcode byte, or the one after the length for extended opcodes. */
  function OpcodeOf(op: Op): byte {
    match op
    case Special(opcode) => opcode
    case Copy => 0x01 case AdvancePc(_) => 0x02 case AdvanceLine(_) => 0x03
    case SetFile(_) => 0x04 case SetColumn(_) => 0x05 case NegateStmt => 0x06
    case SetBasicBlock => 0x07 case ConstAddPc => 0x08 case FixedAdvancePc(_) => 0x09
    case SetPrologueEnd => 0x0a case SetEpilogueBegin => 0x0b case SetIsa(_) => 0x0c
    case EndSequence => 0x01 case SetAddress(_) => 0x02 case DefineFile(_) => 0x03
    case SetDiscriminator(_) => 0x04
  }

  predicate Extended(op: Op) {
    op.EndSequence? || op.SetAddress? || op.DefineFile? || op.SetDiscriminator?
  }

  function EncodeFileText(t: FileText): seq<byte> {
    t.name + [0] + Leb128.EncodeUnsigned(t.dir, 0) + Leb128.EncodeUnsigned(t.mtime, 0)
    + Leb128.EncodeUnsigned(t.length, 0)
  }

  function Operands(s: Section, op: Op): seq<byte> {
    match op
    case AdvancePc(n) => Leb128.EncodeUnsigned(n, 0)
    case AdvanceLine(n) => Leb128.EncodeSigned(n, 0)
    case SetFile(n) => Leb128.EncodeUnsigned(n, 0)
    case SetColumn(n) => Leb128.EncodeUnsigned(n, 0)
    case SetIsa(n) => Leb128.EncodeUnsigned(n, 0)
    case FixedAdvancePc(n) => EncodeFixed(s.ord, 2, n)
    case SetAddress(a) => EncodeFixed(s.ord, s.addrSize, a)
    case DefineFile(t) => EncodeFileText(t)
    case SetDiscriminator(n) => Leb128.EncodeUnsigned(n, 0)
    case _ => []
  }

  function EncodeOp(s: Section, op: Op): seq<byte> {
    if Extended(op) then
      [0] + Leb128.EncodeUnsigned(1 + |Operands(s, op)|, 0) + [OpcodeOf(op)] + Operands(s, op)
    else [OpcodeOf(op)] + Operands(s, op)
  }

  /** The opcode can be written: special opcodes from the base up, standard ones below it,
      operands within their fields. */
  ghost predicate Encodable(h: Header, s: Section, op: Op) {
    match op
    case Special(opcode) => opcode >= h.opcodeBase
    case AdvanceLine(n) => 0x03 < h.opcodeBase && -B63 <= n < B63
    case FixedAdvancePc(n) => 0x09 < h.opcodeBase && n < 0x1_0000
    case SetAddress(a) => s.addrSize in {1, 2, 4, 8} && a < Pow2(8 * s.addrSize)
    case DefineFile(t) => forall i :: 0 <= i < |t.name| ==> t.name[i] != 0
    case _ => Extended(op) || OpcodeOf(op) < h.opcodeBase
  }

  lemma FileTextRoundTrip(s: Section, t: FileText, pos: nat)
    requires forall i :: 0 <= i < |t.name| ==> t.name[i] != 0
    requires At(s.data, pos, EncodeFileText(t))
    ensures ReadFileText(s, pos) == Value((t, pos + |EncodeFileText(t)|))
  {
    hide ReadCstr, ReadUleb, At;
    var name := t.name + [0];
    var a, b := Leb128.EncodeUnsigned(t.dir, 0), Leb128.EncodeUnsigned(t.mtime, 0);
    var c := Leb128.EncodeUnsigned(t.length, 0);
    AtAppendFour(s.data, pos, name, a, b, c);
    CstrRoundTrip(s, t.name, pos);
    UlebRoundTrip(s, t.dir, 0, pos + |name|);
    UlebRoundTrip(s, t.mtime, 0, pos + |name| + |a|);
    UlebRoundTrip(s, t.length, 0, pos + |name| + |a| + |b|);
  }

  lemma StandardRoundTrip(h: Header, s: Section, op: Op, p: nat)
    requires h.Valid() && Encodable(h, s, op) && !Extended(op) && !op.Special?
    requires At(s.data, p, Operands(s, op))
    ensures ReadStandard(s, OpcodeOf(op), p) == Value((op, p + |Operands(s, op)|))
  {
    hide ReadUleb, ReadSleb, ReadFixed, At, EncodeFixed;
    match op
    case AdvancePc(n) => UlebRoundTrip(s, n, 0, p);
    case AdvanceLine(n) => SlebRoundTrip(s, n, 0, p);
    case SetFile(n) => UlebRoundTrip(s, n, 0, p);
    case SetColumn(n) => UlebRoundTrip(s, n, 0, p);
    case SetIsa(n) => UlebRoundTrip(s, n, 0, p);
    case FixedAdvancePc(n) =>
      Pow2Of64();
      EncodeFixedLength(s.ord, 2, n);
      FixedRoundTrip(s, 2, n, p);
    case _ =>
  }

  lemma ExtendedRoundTrip(h: Header, s: Section, op: Op, p: nat)
    requires Encodable(h, s, op) && Extended(op)
    requires At(s.data, p, Operands(s, op))
    ensures ReadExtended(s, OpcodeOf(op), p) == Value((op, p + |Operands(s, op)|))
  {
    hide ReadUleb, ReadFixed, At, EncodeFileText;
    match op
    case SetAddress(a) =>
      EncodeFixedLength(s.ord, s.addrSize, a);
      FixedRoundTrip(s, s.addrSize, a, p);
    case DefineFile(t) => FileTextRoundTrip(s, t, p);
    case SetDiscriminator(n) => UlebRoundTrip(s, n, 0, p);
    case EndSequence =>
  }

  /** Decoding undoes encoding, opcode by opcode. */
  lemma OpRoundTrip(h: Header, s: Section, op: Op, pos: nat)
    requires h.Valid() && |s.data| < B64
    requires Encodable(h, s, op) && At(s.data, pos, EncodeOp(s, op))
    ensures ReadOp(h, s, pos) == Value((op, pos + |EncodeOp(s, op)|))
  {
    if Extended(op) {
      ExtendedOpRoundTrip(h, s, op, pos);
    } else {
      PlainOpRoundTrip(h, s, op, pos);
    }
  }

  lemma PlainOpRoundTrip(h: Header, s: Section, op: Op, pos: nat)
    requires h.Valid() && Encodable(h, s, op) && !Extended(op)
    requires At(s.data, pos, EncodeOp(s, op))
    ensures ReadOp(h, s, pos) == Value((op, pos + |EncodeOp(s, op)|))
  {
    hide ReadUleb, ReadStandard, ReadFixed, At, Operands;
    AtAppend(s.data, pos, [OpcodeOf(op)], Operands(s, op));
    OneByte(s, pos, OpcodeOf(op));
    if op.Special? {
      NoOperands(s, op);
    } else {
      StandardRoundTrip(h, s, op, pos + 1);
    }
  }

  lemma NoOperands(s: Section, op: Op)
    requires op.Special?
    ensures Operands(s, op) == []
  {
  }

  lemma ReadExtendedOp(h: Header, s: Section, pos: nat, length: u64, sub: byte, q: nat, op: Op, next: nat)
    requires h.Valid() && ReadFixed(s, 1, pos) == Value((0, pos + 1))
    requires ReadUleb(s, pos + 1) == Value((length, q)) && ReadFixed(s, 1, q) == Value((sub, q + 1))
    requires ReadExtended(s, sub, q + 1) == Value((op, next))
    requires next == q + length && next < B64
    ensures ReadOp(h, s, pos) == Value((op, next))
  {
    hide ReadUleb, ReadExtended, ReadFixed;
    SmallMod(q + length, B64);
  }

  lemma ExtendedOpRoundTrip(h: Header, s: Section, op: Op, pos: nat)
    requires h.Valid() && |s.data| < B64 && Encodable(h, s, op) && Extended(op)
    requires At(s.data, pos, EncodeOp(s, op))
    ensures ReadOp(h, s, pos) == Value((op, pos + |EncodeOp(s, op)|))
  {
    hide ReadOp, ReadUleb, ReadExtended, ReadFixed, Operands, Encodable, OpcodeOf, At;
    var operands := Operands(s, op);
    var length := Leb128.EncodeUnsigned(1 + |operands|, 0);
    AtAppendFour(s.data, pos, [0], length, [OpcodeOf(op)], operands);
    var q := pos + 1 + |length|;
    AtBound(s.data, q + 1, operands);
    OneByte(s, pos, 0);
    UlebRoundTrip(s, 1 + |operands|, 0, pos + 1);
    OneByte(s, q, OpcodeOf(op));
    ExtendedRoundTrip(h, s, op, q + 1);
    ReadExtendedOp(h, s, pos, 1 + |operands|, OpcodeOf(op), q, op, q + 1 + |operands|);
  }

  function EncodeOps(s: Section, ops: seq<Op>): seq<byte> {
    if ops == [] then [] else EncodeOp(s, ops[0]) + EncodeOps(s, ops[1..])
  }

  /** Rows emitted by a list of opcodes, and the registers after it. */
  datatype Run = Run(rows: seq<Regs>, regs: Regs)

  function RunOps(h: Header, r: Regs, ops: seq<Op>): Run
    requires h.Valid()
    decreases |ops|
  {
    if ops == [] then Run([], r)
    else
      var e := Apply(h, r, ops[0]);
      var rest := RunOps(h, e.regs, ops[1..]);
      Run(RowsOf(e) + rest.rows, rest.regs)
  }

  function RowsOf(e: Effect): seq<Regs> {
    match e.row
    case None => []
    case Some(row) => [row]
  }

  predicate Emits(op: Op) {
    op.Special? || op.Copy? || op.EndSequence?
  }

  lemma EmitsRow(h: Header, r: Regs, op: Op)
    requires h.Valid()
    ensures Apply(h, r, op).row.Some? <==> Emits(op)
  {
    hide Advance, SpecialLines, SpecialOps;
  }

  /** Executing the bytes is executing the opcodes, if the last of them emits a row. */
  lemma {:induction false} RowsOfOps(h: Header, s: Section, r: Regs, ops: seq<Op>, pos: nat)
    requires h.Valid() && |s.data| < B64
    requires forall k :: 0 <= k < |ops| ==> Encodable(h, s, ops[k])
    requires At(s.data, pos, EncodeOps(s, ops)) && pos + |EncodeOps(s, ops)| == |s.data|
    requires ops != [] ==> Emits(ops[|ops| - 1])
    ensures Rows(h, s, r, pos) == Value(RunOps(h, r, ops).rows)
    ensures ops != [] ==> RowsAfter(h, s, r, pos) == Value(RunOps(h, r, ops).rows)
    decreases |ops|
  {
    hide ReadOp, Apply, EncodeOp, Encodable, At;
    if ops != [] {
      var e := Apply(h, r, ops[0]);
      var rest := RunOps(h, e.regs, ops[1..]);
      assert [] + rest.rows == rest.rows;
      AtAppend(s.data, pos, EncodeOp(s, ops[0]), EncodeOps(s, ops[1..]));
      OpRoundTrip(h, s, ops[0], pos);
      ReadOpAdvances(h, s, pos);
      EmitsRow(h, r, ops[0]);
      RowsOfOps(h, s, Apply(h, r, ops[0]).regs, ops[1..], pos + |EncodeOp(s, ops[0])|);
    }
  }

  lemma {:induction false} RunAppend(h: Header, r: Regs, a: seq<Op>, b: seq<Op>)
    requires h.Valid()
    ensures RunOps(h, r, a + b) ==
            Run(RunOps(h, r, a).rows + RunOps(h, RunOps(h, r, a).regs, b).rows,
                RunOps(h, RunOps(h, r, a).regs, b).regs)
    decreases |a|
  {
    hide Apply;
    if a == [] {
      assert a + b == b;
    } else {
      assert (a + b)[1..] == a[1..] + b;
      RunAppend(h, Apply(h, r, a[0]).regs, a[1..], b);
    }
  }

  // The assembler.

  /** The operations to advance by from one place to another, if an advance can do it. */
  function Distance(h: Header, cur: Regs, row: Regs): (d: Option<nat>)
    requires h.Valid()
    ensures d.Some? ==> cur.opIndex + d.value < B64
  {
    var delta := row.address - cur.address;
    if delta < 0 || (delta != 0 && (h.minInst == 0 || delta % h.minInst != 0)) then None
    else
      var n := (if delta == 0 then 0 else delta / h.minInst) * h.maxOps + row.opIndex - cur.opIndex;
      if n < 0 || cur.opIndex + n >= B64 then None else Some(n)
  }

  /** The special opcode for an advance of n operations and `inc` lines, if there is one
      (section 6.2.5.1). */
  function SpecialFor(h: Header, inc: int, n: nat): Option<byte> {
    if !(h.lineBase <= inc < h.lineBase + h.lineRange) then None
    else
      var opcode := (inc - h.lineBase) + h.lineRange * n + h.opcodeBase;
      if opcode > 255 then None else Some(CheckedByte(opcode))
  }

  function CheckedByte(v: int): byte {
    if 0 <= v < 256 then v else 0
  }

  function When(needed: bool, op: Op): seq<Op> {
    if needed then [op] else []
  }

  function Selectors(cur: Regs, row: Regs): seq<Op> {
    When(cur.fileIndex != row.fileIndex, SetFile(row.fileIndex))
    + When(cur.column != row.column, SetColumn(row.column))
    + When(cur.isa != row.isa, SetIsa(row.isa))
    + When(cur.discriminator != row.discriminator, SetDiscriminator(row.discriminator))
  }

  function Flags(cur: Regs, row: Regs): seq<Op> {
    When(cur.isStmt != row.isStmt, NegateStmt)
    + When(cur.basicBlock != row.basicBlock, SetBasicBlock)
    + When(cur.prologueEnd != row.prologueEnd, SetPrologueEnd)
    + When(cur.epilogueBegin != row.epilogueBegin, SetEpilogueBegin)
  }

  /** Move to the row's place with standard and extended opcodes. */
  function Place(h: Header, cur: Regs, row: Regs): seq<Op>
    requires h.Valid()
  {
    match Distance(h, cur, row)
    case Some(n) => When(n != 0, AdvancePc(n))
    case None => [SetAddress(row.address)] + When(row.opIndex != 0, AdvancePc(row.opIndex))
  }

  /** ... and to its line. */
  function Move(h: Header, cur: Regs, row: Regs): seq<Op>
    requires h.Valid()
  {
    Place(h, cur, row) + When(cur.line != row.line, AdvanceLine(row.line - cur.line))
  }

  function SpecialMove(h: Header, cur: Regs, row: Regs): Option<byte>
    requires h.Valid()
  {
    match Distance(h, cur, row)
    case None => None
    case Some(n) => SpecialFor(h, row.line - cur.line, n)
  }

  /** Emit one row from the registers left by the row before. */
  function Assemble(h: Header, cur: Regs, row: Regs): seq<Op>
    requires h.Valid()
  {
    Selectors(cur, row) + Flags(cur, row)
    + if row.endSequence then Move(h, cur, row) + [EndSequence]
      else
        match SpecialMove(h, cur, row)
        case Some(opcode) => [Special(opcode)]
        case None => Move(h, cur, row) + [Copy]
  }

  function After(h: Header, row: Regs): Regs {
    if row.endSequence then Initial(h.defaultIsStmt) else Cleared(row)
  }

  function AssembleAll(h: Header, cur: Regs, rows: seq<Regs>): seq<Op>
    requires h.Valid()
    decreases |rows|
  {
    if rows == [] then []
    else Assemble(h, cur, rows[0]) + AssembleAll(h, After(h, rows[0]), rows[1..])
  }

  /** Registers between two rows. */
  ghost predicate Between(h: Header, r: Regs) {
    r.opIndex < h.maxOps && !r.endSequence && !r.basicBlock && !r.prologueEnd && !r.epilogueBegin
  }

  /** Rows a program can describe: the operation index in range, the address within the
      target's address size, and each field either as it is initially or set by an opcode
      below the base. */
  ghost predicate Describable(h: Header, s: Section, row: Regs) {
    && row.opIndex < h.maxOps && s.addrSize in {1, 2, 4, 8} && row.address < Pow2(8 * s.addrSize)
    && (row.fileIndex != 1 ==> h.opcodeBase > 0x04)
    && (row.column != 0 ==> h.opcodeBase > 0x05)
    && (row.isStmt != h.defaultIsStmt ==> h.opcodeBase > 0x06)
    && (row.basicBlock ==> h.opcodeBase > 0x07)
    && (row.prologueEnd ==> h.opcodeBase > 0x0a)
    && (row.epilogueBegin ==> h.opcodeBase > 0x0b)
    && (row.isa != 0 ==> h.opcodeBase > 0x0c)
  }

  lemma DivideExact(delta: nat, m: nat)
    requires m > 0 && delta % m == 0
    ensures m * (delta / m) == delta
  {
  }

  /** The special-opcode formula is invertible: the opcode computed for an advance decodes to
      that advance. */
  lemma SpecialInverts(h: Header, inc: int, n: nat)
    requires h.Valid() && SpecialFor(h, inc, n).Some?
    ensures var opcode := SpecialFor(h, inc, n).value;
            opcode >= h.opcodeBase && SpecialLines(h, opcode) == inc && SpecialOps(h, opcode) == n
  {
    MulMono(0, n, h.lineRange);
    var adjusted := (inc - h.lineBase) + h.lineRange * n;
    SmallMod(adjusted, 256);
    DivModUnique(adjusted, h.lineRange, n, inc - h.lineBase);
  }

  /** An advance by the computed distance arrives. */
  lemma DistanceArrives(h: Header, cur: Regs, row: Regs)
    requires h.Valid() && Between(h, cur) && row.opIndex < h.maxOps
    requires Distance(h, cur, row).Some?
    ensures Advance(h, cur, Distance(h, cur, row).value, B64) ==
            cur.(address := row.address, opIndex := row.opIndex)
  {
    var delta := row.address - cur.address;
    var q := if delta == 0 then 0 else delta / h.minInst;
    var n := Distance(h, cur, row).value;
    DivModUnique(cur.opIndex + n, h.maxOps, q, row.opIndex);
    AdvanceIs(h, cur, n);
    if delta != 0 {
      DivideExact(delta, h.minInst);
    }
    assert h.minInst * q == delta;
    SmallMod(delta, B64);
    SmallMod(row.address, B64);
  }

  lemma SetAddressArrives(h: Header, cur: Regs, row: Regs)
    requires h.Valid() && row.opIndex < h.maxOps
    ensures Advance(h, cur.(address := row.address, opIndex := 0), row.opIndex, B64) ==
            cur.(address := row.address, opIndex := row.opIndex)
  {
    hide Advance, Moved;
    AdvanceIs(h, cur.(address := row.address, opIndex := 0), row.opIndex);
    DivModUnique(row.opIndex, h.maxOps, 0, row.opIndex);
    MovedNowhere(row.address, h.minInst);
  }

  lemma MovedNowhere(address: u64, minInst: nat)
    ensures Moved(address, minInst, 0) == address
  {
    SmallMod(address, B64);
  }

  lemma LineArrives(cur: u32, row: u32)
    ensures Wrap32(cur + (row - cur)) == row
  {
  }

  lemma RunOne(h: Header, r: Regs, op: Op)
    requires h.Valid()
    ensures RunOps(h, r, [op]) == Run(RowsOf(Apply(h, r, op)), Apply(h, r, op).regs)
  {
    hide Apply;
    assert [op][1..] == [];
  }

  lemma RunNone(h: Header, r: Regs)
    requires h.Valid()
    ensures RunOps(h, r, []) == Run([], r)
  {
  }

  /** `ops` changes the registers from r to r' without emitting a row. */
  ghost predicate Sets(h: Header, r: Regs, ops: seq<Op>, r': Regs) {
    h.Valid() && RunOps(h, r, ops) == Run([], r')
  }

  lemma SetsThen(h: Header, r: Regs, a: seq<Op>, r': Regs, b: seq<Op>, r'': Regs)
    requires Sets(h, r, a, r') && Sets(h, r', b, r'')
    ensures Sets(h, r, a + b, r'')
  {
    RunAppend(h, r, a, b);
  }

  lemma SetsWhen(h: Header, r: Regs, needed: bool, op: Op, r': Regs)
    requires h.Valid()
    requires if needed then Apply(h, r, op) == Quiet(r') else r == r'
    ensures Sets(h, r, When(needed, op), r')
  {
    hide Apply;
    RunOne(h, r, op);
    RunNone(h, r);
  }

  lemma SetsFour(h: Header, r: Regs, a: seq<Op>, b: seq<Op>, c: seq<Op>, d: seq<Op>,
                 r1: Regs, r2: Regs, r3: Regs, r4: Regs)
    requires Sets(h, r, a, r1) && Sets(h, r1, b, r2) && Sets(h, r2, c, r3) && Sets(h, r3, d, r4)
    ensures Sets(h, r, a + b + c + d, r4)
  {
    hide Sets;
    SetsThen(h, r, a, r1, b, r2);
    SetsThen(h, r, a + b, r2, c, r3);
    SetsThen(h, r, a + b + c, r3, d, r4);
  }

  lemma FileSet(h: Header, r: Regs, n: u32)
    requires h.Valid()
    ensures Sets(h, r, When(r.fileIndex != n, SetFile(n)), r.(fileIndex := n))
  {
    hide RunOps, Sets, When, Wrap32;
    WrapSmall(n);
    SetsWhen(h, r, r.fileIndex != n, SetFile(n), r.(fileIndex := n));
  }

  lemma ColumnSet(h: Header, r: Regs, n: u32)
    requires h.Valid()
    ensures Sets(h, r, When(r.column != n, SetColumn(n)), r.(column := n))
  {
    hide RunOps, Sets, When, Wrap32;
    WrapSmall(n);
    SetsWhen(h, r, r.column != n, SetColumn(n), r.(column := n));
  }

  lemma IsaSet(h: Header, r: Regs, n: u32)
    requires h.Valid()
    ensures Sets(h, r, When(r.isa != n, SetIsa(n)), r.(isa := n))
  {
    hide RunOps, Sets, When, Wrap32;
    WrapSmall(n);
    SetsWhen(h, r, r.isa != n, SetIsa(n), r.(isa := n));
  }

  lemma DiscriminatorSet(h: Header, r: Regs, n: u32)
    requires h.Valid()
    ensures Sets(h, r, When(r.discriminator != n, SetDiscriminator(n)), r.(discriminator := n))
  {
    hide RunOps, Sets, When, Wrap32;
    WrapSmall(n);
    SetsWhen(h, r, r.discriminator != n, SetDiscriminator(n), r.(discriminator := n));
  }

  lemma SelectorsSet(h: Header, cur: Regs, row: Regs)
    requires h.Valid()
    ensures Sets(h, cur, Selectors(cur, row),
                 cur.(fileIndex := row.fileIndex, column := row.column, isa := row.isa,
                      discriminator := row.discriminator))
  {
    hide RunOps, Sets, When, Wrap32;
    var r1 := cur.(fileIndex := row.fileIndex);
    var r2 := r1.(column := row.column);
    var r3 := r2.(isa := row.isa);
    var r4 := r3.(discriminator := row.discriminator);
    FileSet(h, cur, row.fileIndex);
    ColumnSet(h, r1, row.column);
    IsaSet(h, r2, row.isa);
    DiscriminatorSet(h, r3, row.discriminator);
    SetsFour(h, cur, When(cur.fileIndex != row.fileIndex, SetFile(row.fileIndex)),
             When(cur.column != row.column, SetColumn(row.column)),
             When(cur.isa != row.isa, SetIsa(row.isa)),
             When(cur.discriminator != row.discriminator, SetDiscriminator(row.discriminator)), r1, r2, r3, r4);
  }

  lemma FlagsSet(h: Header, cur: Regs, row: Regs)
    requires h.Valid() && !cur.basicBlock && !cur.prologueEnd && !cur.epilogueBegin
    ensures Sets(h, cur, Flags(cur, row),
                 cur.(isStmt := row.isStmt, basicBlock := row.basicBlock, prologueEnd := row.prologueEnd,
                      epilogueBegin := row.epilogueBegin))
  {
    hide RunOps, Sets, When;
    var r1 := cur.(isStmt := row.isStmt);
    var r2 := r1.(basicBlock := row.basicBlock);
    var r3 := r2.(prologueEnd := row.prologueEnd);
    var r4 := r3.(epilogueBegin := row.epilogueBegin);
    SetsWhen(h, cur, cur.isStmt != row.isStmt, NegateStmt, r1);
    SetsWhen(h, r1, cur.basicBlock != row.basicBlock, SetBasicBlock, r2);
    SetsWhen(h, r2, cur.prologueEnd != row.prologueEnd, SetPrologueEnd, r3);
    SetsWhen(h, r3, cur.epilogueBegin != row.epilogueBegin, SetEpilogueBegin, r4);
    SetsFour(h, cur, When(cur.isStmt != row.isStmt, NegateStmt),
             When(cur.basicBlock != row.basicBlock, SetBasicBlock),
             When(cur.prologueEnd != row.prologueEnd, SetPrologueEnd),
             When(cur.epilogueBegin != row.epilogueBegin, SetEpilogueBegin), r1, r2, r3, r4);
  }

  /** The registers once a row's other fields are set: the row, still at the old place. */
  ghost function Prepared(cur: Regs, row: Regs): Regs {
    row.(address := cur.address, opIndex := cur.opIndex, line := cur.line, endSequence := false)
  }

  lemma Prepares(h: Header, cur: Regs, row: Regs)
    requires h.Valid() && Between(h, cur)
    ensures Sets(h, cur, Selectors(cur, row) + Flags(cur, row), Prepared(cur, row))
  {
    hide RunOps, Sets, Selectors, Flags;
    var mid := cur.(fileIndex := row.fileIndex, column := row.column, isa := row.isa,
                    discriminator := row.discriminator);
    SelectorsSet(h, cur, row);
    FlagsSet(h, mid, row);
    SameFlags(cur, mid, row);
    SetsThen(h, cur, Selectors(cur, row), mid, Flags(cur, row), Prepared(cur, row));
  }

  lemma SameFlags(a: Regs, b: Regs, row: Regs)
    requires a.isStmt == b.isStmt && a.basicBlock == b.basicBlock
    requires a.prologueEnd == b.prologueEnd && a.epilogueBegin == b.epilogueBegin
    ensures Flags(a, row) == Flags(b, row)
  {
  }

  lemma MoveSets(h: Header, cur: Regs, row: Regs)
    requires h.Valid() && Between(h, cur) && row.opIndex < h.maxOps
    ensures Sets(h, Prepared(cur, row), Move(h, cur, row), row.(endSequence := false))
  {
    hide RunOps, Sets, When, Advance, Place;
    var r := Prepared(cur, row);
    var placed := r.(address := row.address, opIndex := row.opIndex);
    PlaceSets(h, cur, row);
    LineArrives(cur.line, row.line);
    SetsWhen(h, placed, cur.line != row.line, AdvanceLine(row.line - cur.line), row.(endSequence := false));
    SetsThen(h, r, Place(h, cur, row), placed,
             When(cur.line != row.line, AdvanceLine(row.line - cur.line)), row.(endSequence := false));
  }

  lemma PlaceSets(h: Header, cur: Regs, row: Regs)
    requires h.Valid() && Between(h, cur) && row.opIndex < h.maxOps
    ensures Sets(h, Prepared(cur, row), Place(h, cur, row),
                 Prepared(cur, row).(address := row.address, opIndex := row.opIndex))
  {
    hide Advance, RunOps, Distance, When, Sets;
    var r := Prepared(cur, row);
    var placed := r.(address := row.address, opIndex := row.opIndex);
    SameDistance(h, cur, r, row);
    match Distance(h, cur, row)
    case Some(n) =>
      AdvanceFrom(h, cur, r, row, n);
      NoAdvance(h, r);
      SetsWhen(h, r, n != 0, AdvancePc(n), placed);
    case None =>
      var at := r.(address := row.address, opIndex := 0);
      SetAddressArrives(h, r, row);
      SetsWhen(h, r, true, SetAddress(row.address), at);
      SetsWhen(h, at, row.opIndex != 0, AdvancePc(row.opIndex), placed);
      WhenTrue(SetAddress(row.address));
      SetsThen(h, r, [SetAddress(row.address)], at, When(row.opIndex != 0, AdvancePc(row.opIndex)), placed);
  }

  lemma WhenTrue(op: Op)
    ensures When(true, op) == [op]
  {
  }

  lemma NoAdvance(h: Header, r: Regs)
    requires h.Valid()
    ensures r.opIndex < h.maxOps ==> Advance(h, r, 0, B64) == r
  {
    if r.opIndex < h.maxOps {
      hide Moved;
      AdvanceIs(h, r, 0);
      DivModUnique(r.opIndex, h.maxOps, 0, r.opIndex);
      MovedNowhere(r.address, h.minInst);
    }
  }

  lemma SameDistance(h: Header, a: Regs, b: Regs, row: Regs)
    requires h.Valid() && a.address == b.address && a.opIndex == b.opIndex
    ensures Distance(h, a, row) == Distance(h, b, row)
  {
  }

  /** The computed advance, made from other registers at the same place. */
  lemma AdvanceFrom(h: Header, cur: Regs, r: Regs, row: Regs, n: nat)
    requires h.Valid() && Between(h, cur) && row.opIndex < h.maxOps
    requires Distance(h, cur, row) == Some(n)
    requires r.address == cur.address && r.opIndex == cur.opIndex
    ensures Advance(h, r, n, B64) == r.(address := row.address, opIndex := row.opIndex)
  {
    hide Distance;
    DistanceArrives(h, cur, row);
    AdvancePlace(h, r, cur, n);
    OnlyPlace(h, r, n);
  }

  lemma OnlyPlace(h: Header, r: Regs, n: nat)
    requires h.Valid()
    ensures var a := Advance(h, r, n, B64); a == r.(address := a.address, opIndex := a.opIndex)
  {
  }

  /** A special opcode that fits emits the row at once. */
  lemma SpecialEmits(h: Header, cur: Regs, row: Regs)
    requires h.Valid() && Between(h, cur) && row.opIndex < h.maxOps
    requires SpecialMove(h, cur, row).Some?
    ensures Apply(h, Prepared(cur, row), Special(SpecialMove(h, cur, row).value)) ==
            Emit(row.(endSequence := false))
  {
    hide Advance, Distance, SpecialFor, SpecialLines, SpecialOps;
    var n, inc := Distance(h, cur, row).value, row.line - cur.line;
    var r := Prepared(cur, row).(line := row.line);
    var opcode := SpecialMove(h, cur, row).value;
    SpecialInverts(h, inc, n);
    SpecialOpsBound(h, opcode);
    LineArrives(cur.line, row.line);
    NarrowAdvance(h, r, n);
    AdvanceFrom(h, cur, r, row, n);
  }

  /** The opcodes for a row emit exactly that row. */
  lemma AssembleEmits(h: Header, cur: Regs, row: Regs)
    requires h.Valid() && Between(h, cur) && row.opIndex < h.maxOps
    ensures RunOps(h, cur, Assemble(h, cur, row)) == Run([row], After(h, row))
  {
    hide RunOps, Selectors, Flags, Move, SpecialMove, Apply;
    var prepare, r := Selectors(cur, row) + Flags(cur, row), Prepared(cur, row);
    Prepares(h, cur, row);
    MoveSets(h, cur, row);
    var last := if row.endSequence then EndSequence else Copy;
    LastEmits(h, row);
    RunOne(h, row.(endSequence := false), last);
    RunAppend(h, r, Move(h, cur, row), [last]);
    RunAppend(h, cur, prepare, Move(h, cur, row) + [last]);
    if !row.endSequence && SpecialMove(h, cur, row).Some? {
      var op := Special(SpecialMove(h, cur, row).value);
      SpecialEmits(h, cur, row);
      RunOne(h, r, op);
      RunAppend(h, cur, prepare, [op]);
    }
  }

  lemma LastEmits(h: Header, row: Regs)
    requires h.Valid()
    ensures Apply(h, row.(endSequence := false), if row.endSequence then EndSequence else Copy) ==
            Effect(After(h, row), Some(row))
  {
  }

  /** So the opcodes for a list of rows emit exactly those rows. */
  lemma {:induction false} AssembleAllEmits(h: Header, cur: Regs, rows: seq<Regs>)
    requires h.Valid() && Between(h, cur)
    requires forall i :: 0 <= i < |rows| ==> rows[i].opIndex < h.maxOps
    ensures RunOps(h, cur, AssembleAll(h, cur, rows)).rows == rows
    decreases |rows|
  {
    hide RunOps, Assemble;
    if rows == [] {
      RunNone(h, cur);
    } else {
      AssembleEmits(h, cur, rows[0]);
      AssembleAllEmits(h, After(h, rows[0]), rows[1..]);
      RunAppend(h, cur, Assemble(h, cur, rows[0]), AssembleAll(h, After(h, rows[0]), rows[1..]));
    }
  }

  ghost predicate AllEncodable(h: Header, s: Section, ops: seq<Op>) {
    forall k :: 0 <= k < |ops| ==> Encodable(h, s, ops[k])
  }

  lemma EncodableAppend(h: Header, s: Section, a: seq<Op>, b: seq<Op>)
    requires AllEncodable(h, s, a) && AllEncodable(h, s, b)
    ensures AllEncodable(h, s, a + b)
  {
    hide Encodable;
  }

  // Which rows the standard opcodes of a header can describe.

  /** The opcodes that set the fields in which the row differs lie below the opcode base. */
  ghost predicate Settable(h: Header, cur: Regs, row: Regs) {
    && (cur.fileIndex != row.fileIndex ==> h.opcodeBase > 0x04)
    && (cur.column != row.column ==> h.opcodeBase > 0x05)
    && (cur.isStmt != row.isStmt ==> h.opcodeBase > 0x06)
    && (cur.basicBlock != row.basicBlock ==> h.opcodeBase > 0x07)
    && (cur.prologueEnd != row.prologueEnd ==> h.opcodeBase > 0x0a)
    && (cur.epilogueBegin != row.epilogueBegin ==> h.opcodeBase > 0x0b)
    && (cur.isa != row.isa ==> h.opcodeBase > 0x0c)
  }

  ghost predicate Addressable(s: Section, address: u64) {
    s.addrSize in {1, 2, 4, 8} && address < Pow2(8 * s.addrSize)
  }

  /** ... and those that move to its place and line. */
  ghost predicate Movable(h: Header, s: Section, cur: Regs, row: Regs)
    requires h.Valid()
  {
    && (match Distance(h, cur, row)
        case Some(n) => n != 0 ==> h.opcodeBase > 0x02
        case None => Addressable(s, row.address) && (row.opIndex != 0 ==> h.opcodeBase > 0x02))
    && (cur.line != row.line ==> h.opcodeBase > 0x03)
  }

  ghost predicate Reachable(h: Header, s: Section, cur: Regs, row: Regs)
    requires h.Valid()
  {
    row.opIndex < h.maxOps && Settable(h, cur, row) &&
    ((!row.endSequence && SpecialMove(h, cur, row).Some?) ||
     (Movable(h, s, cur, row) && (!row.endSequence ==> h.opcodeBase > 0x01)))
  }

  ghost predicate AllReachable(h: Header, s: Section, cur: Regs, rows: seq<Regs>)
    requires h.Valid()
    decreases |rows|
  {
    rows == [] || (Reachable(h, s, cur, rows[0]) && AllReachable(h, s, After(h, rows[0]), rows[1..]))
  }

  lemma AssembleEncodable(h: Header, s: Section, cur: Regs, row: Regs)
    requires h.Valid() && Reachable(h, s, cur, row)
    ensures AllEncodable(h, s, Assemble(h, cur, row))
    ensures Assemble(h, cur, row) != [] && Emits(Assemble(h, cur, row)[|Assemble(h, cur, row)| - 1])
  {
    hide Encodable, AllEncodable, Distance, SpecialFor, Settable, Movable, Selectors, Flags, Move;
    SelectorsEncodable(h, s, cur, row);
    var prepare := Selectors(cur, row) + Flags(cur, row);
    var last := if row.endSequence then EndSequence else Copy;
    if !row.endSequence && SpecialMove(h, cur, row).Some? {
      var opcode := SpecialMove(h, cur, row).value;
      SpecialEncodable(h, s, row.line - cur.line, Distance(h, cur, row).value);
      EncodableAppend(h, s, prepare, [Special(opcode)]);
    } else {
      MoveEncodable(h, s, cur, row);
      LastEncodable(h, s, last);
      EncodableAppend(h, s, Move(h, cur, row), [last]);
      EncodableAppend(h, s, prepare, Move(h, cur, row) + [last]);
    }
  }

  lemma WhenEncodable(h: Header, s: Section, needed: bool, op: Op)
    requires needed ==> Encodable(h, s, op)
    ensures AllEncodable(h, s, When(needed, op))
  {
    hide Encodable;
  }

  lemma FourEncodable(h: Header, s: Section, a: seq<Op>, b: seq<Op>, c: seq<Op>, d: seq<Op>)
    requires AllEncodable(h, s, a) && AllEncodable(h, s, b) && AllEncodable(h, s, c) && AllEncodable(h, s, d)
    ensures AllEncodable(h, s, a + b + c + d)
  {
    hide AllEncodable;
    EncodableAppend(h, s, a, b);
    EncodableAppend(h, s, a + b, c);
    EncodableAppend(h, s, a + b + c, d);
  }

  /** An opcode that is only written when the base allows it. */
  lemma FieldEncodable(h: Header, s: Section, needed: bool, op: Op)
    requires op.SetFile? || op.SetColumn? || op.SetIsa? || op.NegateStmt? || op.SetBasicBlock? ||
             op.SetPrologueEnd? || op.SetEpilogueBegin?
    requires needed ==> h.opcodeBase > OpcodeOf(op)
    ensures AllEncodable(h, s, When(needed, op))
  {
    WhenEncodable(h, s, needed, op);
  }

  lemma SelectorsEncodable(h: Header, s: Section, cur: Regs, row: Regs)
    requires Settable(h, cur, row)
    ensures AllEncodable(h, s, Selectors(cur, row) + Flags(cur, row))
  {
    hide When, AllEncodable;
    FieldEncodable(h, s, cur.fileIndex != row.fileIndex, SetFile(row.fileIndex));
    FieldEncodable(h, s, cur.column != row.column, SetColumn(row.column));
    FieldEncodable(h, s, cur.isa != row.isa, SetIsa(row.isa));
    WhenEncodable(h, s, cur.discriminator != row.discriminator, SetDiscriminator(row.discriminator));
    FourEncodable(h, s, When(cur.fileIndex != row.fileIndex, SetFile(row.fileIndex)),
                  When(cur.column != row.column, SetColumn(row.column)),
                  When(cur.isa != row.isa, SetIsa(row.isa)),
                  When(cur.discriminator != row.discriminator, SetDiscriminator(row.discriminator)));
    FlagsEncodable(h, s, cur, row);
    EncodableAppend(h, s, Selectors(cur, row), Flags(cur, row));
  }

  lemma FlagsEncodable(h: Header, s: Section, cur: Regs, row: Regs)
    requires Settable(h, cur, row)
    ensures AllEncodable(h, s, Flags(cur, row))
  {
    hide When, AllEncodable;
    FieldEncodable(h, s, cur.isStmt != row.isStmt, NegateStmt);
    FieldEncodable(h, s, cur.basicBlock != row.basicBlock, SetBasicBlock);
    FieldEncodable(h, s, cur.prologueEnd != row.prologueEnd, SetPrologueEnd);
    FieldEncodable(h, s, cur.epilogueBegin != row.epilogueBegin, SetEpilogueBegin);
    FourEncodable(h, s, When(cur.isStmt != row.isStmt, NegateStmt),
                  When(cur.basicBlock != row.basicBlock, SetBasicBlock),
                  When(cur.prologueEnd != row.prologueEnd, SetPrologueEnd),
                  When(cur.epilogueBegin != row.epilogueBegin, SetEpilogueBegin));
  }

  lemma MoveEncodable(h: Header, s: Section, cur: Regs, row: Regs)
    requires h.Valid() && Movable(h, s, cur, row)
    ensures AllEncodable(h, s, Move(h, cur, row))
  {
    hide Distance, AllEncodable, When;
    var line := AdvanceLine(row.line - cur.line);
    match Distance(h, cur, row) {
      case Some(n) => WhenEncodable(h, s, n != 0, AdvancePc(n));
      case None =>
        WhenEncodable(h, s, true, SetAddress(row.address));
        WhenTrue(SetAddress(row.address));
        WhenEncodable(h, s, row.opIndex != 0, AdvancePc(row.opIndex));
        EncodableAppend(h, s, [SetAddress(row.address)], When(row.opIndex != 0, AdvancePc(row.opIndex)));
    }
    WhenEncodable(h, s, cur.line != row.line, line);
    EncodableAppend(h, s, Place(h, cur, row), When(cur.line != row.line, line));
  }

  lemma LastEncodable(h: Header, s: Section, op: Op)
    requires op == EndSequence || (op == Copy && h.opcodeBase > 0x01)
    ensures AllEncodable(h, s, [op])
  {
  }

  lemma SpecialEncodable(h: Header, s: Section, inc: int, n: nat)
    requires h.Valid() && SpecialFor(h, inc, n).Some?
    ensures AllEncodable(h, s, [Special(SpecialFor(h, inc, n).value)])
  {
    SpecialInverts(h, inc, n);
  }

  lemma {:induction false} AssembleAllEncodable(h: Header, s: Section, cur: Regs, rows: seq<Regs>)
    requires h.Valid() && AllReachable(h, s, cur, rows)
    ensures var ops := AssembleAll(h, cur, rows);
            AllEncodable(h, s, ops) && (ops != [] ==> Emits(ops[|ops| - 1]))
    ensures forall i :: 0 <= i < |rows| ==> rows[i].opIndex < h.maxOps
    decreases |rows|
  {
    hide Assemble, AllEncodable, Reachable;
    if rows == [] {
      NoOps(h, s);
    } else {
      ReachableIndex(h, s, cur, rows[0]);
      AssembleEncodable(h, s, cur, rows[0]);
      AssembleAllEncodable(h, s, After(h, rows[0]), rows[1..]);
      EncodableAppend(h, s, Assemble(h, cur, rows[0]), AssembleAll(h, After(h, rows[0]), rows[1..]));
    }
  }

  lemma ReachableIndex(h: Header, s: Section, cur: Regs, row: Regs)
    requires h.Valid() && Reachable(h, s, cur, row)
    ensures row.opIndex < h.maxOps
  {
  }

  lemma NoOps(h: Header, s: Section)
    ensures AllEncodable(h, s, [])
  {
  }

  /** For every header: executing the encoding of any list of rows, each reachable from the one
      before with the opcodes below the header's opcode base, emits exactly those rows. */
  lemma AssembledRoundTrip(h: Header, s: Section, rows: seq<Regs>, pos: nat)
    requires h.Valid() && |s.data| < B64 && AllReachable(h, s, Initial(h.defaultIsStmt), rows)
    requires var bytes := EncodeOps(s, AssembleAll(h, Initial(h.defaultIsStmt), rows));
             At(s.data, pos, bytes) && pos + |bytes| == |s.data|
    ensures Rows(h, s, Initial(h.defaultIsStmt), pos) == Value(rows)
  {
    hide AssembleAll, EncodeOps, At, RunOps, Reachable;
    var r := Initial(h.defaultIsStmt);
    AssembleAllEncodable(h, s, r, rows);
    AssembleAllEmits(h, r, rows);
    RowsOfOps(h, s, r, AssembleAll(h, r, rows), pos);
  }

  /** Registers between rows hold only what an opcode below the base can set. */
  ghost predicate Settled(h: Header, r: Regs) {
    && !r.basicBlock && !r.prologueEnd && !r.epilogueBegin
    && (r.fileIndex != 1 ==> h.opcodeBase > 0x04)
    && (r.column != 0 ==> h.opcodeBase > 0x05)
    && (r.isStmt != h.defaultIsStmt ==> h.opcodeBase > 0x06)
    && (r.isa != 0 ==> h.opcodeBase > 0x0c)
  }

  lemma DescribableReaches(h: Header, s: Section, cur: Regs, row: Regs)
    requires h.Valid() && h.opcodeBase > 0x03 && Settled(h, cur) && Describable(h, s, row)
    ensures Reachable(h, s, cur, row) && Settled(h, After(h, row))
  {
    hide Distance, SpecialFor;
  }

  lemma {:induction false} AllDescribableReach(h: Header, s: Section, cur: Regs, rows: seq<Regs>)
    requires h.Valid() && h.opcodeBase > 0x03 && Settled(h, cur)
    requires forall i :: 0 <= i < |rows| ==> Describable(h, s, rows[i])
    ensures AllReachable(h, s, cur, rows)
    decreases |rows|
  {
    hide Reachable, Settled, Describable;
    if rows != [] {
      DescribableReaches(h, s, cur, rows[0]);
      AllDescribableReach(h, s, After(h, rows[0]), rows[1..]);
    }
  }

  /** With the opcodes that copy a row and advance the place and the line, any list of rows is
      emitted whose fields the header's opcodes can set - from version 2 headers, with a base
      of 10, to those with all twelve standard opcodes. */
  lemma ProgramRoundTrip(h: Header, s: Section, rows: seq<Regs>, pos: nat)
    requires h.Valid() && h.opcodeBase > 0x03 && |s.data| < B64
    requires forall i :: 0 <= i < |rows| ==> Describable(h, s, rows[i])
    requires var bytes := EncodeOps(s, AssembleAll(h, Initial(h.defaultIsStmt), rows));
             At(s.data, pos, bytes) && pos + |bytes| == |s.data|
    ensures Rows(h, s, Initial(h.defaultIsStmt), pos) == Value(rows)
  {
    hide AssembleAll, EncodeOps, At, AllReachable, Describable;
    AllDescribableReach(h, s, Initial(h.defaultIsStmt), rows);
    AssembledRoundTrip(h, s, rows, pos);
  }
}
