/** The line-number machine (section 6.2 of DWARF Version 4): decoding an opcode, its
    effect on the registers, and the rows a whole program emits. */
module LineMachine {
  import opened Outcomes
  import opened Words
  import opened Sections

  /** The numeric part of the program header. */
  datatype Header = Header(
    minInst: byte, maxOps: byte, defaultIsStmt: bool, lineBase: int, lineRange: byte, opcodeBase: byte)
  {
    /** What the constructor accepts.  Its table of argument counts has 13 entries. */
    ghost predicate Valid() {
      0 < maxOps && 0 < lineRange && -128 <= lineBase < 128 && 1 <= opcodeBase <= 13
    }
  }

  datatype Regs = Regs(
    address: u64, opIndex: u32, fileIndex: u32, line: u32, column: u32,
    isStmt: bool, basicBlock: bool, endSequence: bool, prologueEnd: bool, epilogueBegin: bool,
    isa: u32, discriminator: u32)

  function Initial(isStmt: bool): Regs {
    Regs(0, 0, 1, 1, 0, isStmt, false, false, false, false, 0, 0)
  }

  /** A file entry: name, directory index, modification time, length. */
  datatype FileText = FileText(name: seq<byte>, dir: u64, mtime: u64, length: u64)

  datatype Op =
    | Special(opcode: byte)
    | Copy
    | AdvancePc(ops: u64)
    | AdvanceLine(lines: int)
    | SetFile(index: u64)
    | SetColumn(column: u64)
    | NegateStmt
    | SetBasicBlock
    | ConstAddPc
    | FixedAdvancePc(bytes: u64)
    | SetPrologueEnd
    | SetEpilogueBegin
    | SetIsa(isa: u64)
    | EndSequence
    | SetAddress(address: u64)
    | DefineFile(text: FileText)
    | SetDiscriminator(discriminator: u64)

  function ReadFileText(s: Section, pos: nat): Outcome<(FileText, nat)> {
    var (name, p) :- ReadCstr(s, pos);
    ReadFileNumbers(s, name, p)
  }

  function ReadFileNumbers(s: Section, name: seq<byte>, p: nat): Outcome<(FileText, nat)> {
    var (dir, q) :- ReadUleb(s, p);
    var (mtime, r) :- ReadUleb(s, q);
    var (length, next) :- ReadUleb(s, r);
    Value((FileText(name, dir, mtime, length), next))
  }

  function ReadStandard(s: Section, opcode: byte, p: nat): Outcome<(Op, nat)> {
    match opcode
    case 0x01 => Value((Copy, p))
    case 0x02 =>
      var (u, next) :- ReadUleb(s, p);
      Value((AdvancePc(u), next))
    case 0x03 =>
      var (i, next) :- ReadSleb(s, p);
      Value((AdvanceLine(i), next))
    case 0x04 =>
      var (u, next) :- ReadUleb(s, p);
      Value((SetFile(u), next))
    case 0x05 =>
      var (u, next) :- ReadUleb(s, p);
      Value((SetColumn(u), next))
    case 0x06 => Value((NegateStmt, p))
    case 0x07 => Value((SetBasicBlock, p))
    case 0x08 => Value((ConstAddPc, p))
    case 0x09 =>
      var (u, next) :- ReadFixed(s, 2, p);
      Value((FixedAdvancePc(u), next))
    case 0x0a => Value((SetPrologueEnd, p))
    case 0x0b => Value((SetEpilogueBegin, p))
    case 0x0c =>
      var (u, next) :- ReadUleb(s, p);
      Value((SetIsa(u), next))
    case _ => Throw(Format)
  }

  function ReadExtended(s: Section, opcode: byte, p: nat): Outcome<(Op, nat)> {
    match opcode
    case 0x01 => Value((EndSequence, p))
    case 0x02 =>
      var (u, next) :- ReadAddress(s, p);
      Value((SetAddress(u), next))
    case 0x03 =>
      var (text, next) :- ReadFileText(s, p);
      Value((DefineFile(text), next))
    case 0x04 =>
      var (u, next) :- ReadUleb(s, p);
      Value((SetDiscriminator(u), next))
    case _ => Throw(if opcode >= 0x80 then Runtime else Format)
  }

  /** An opcode and the offset after its operands.  The length of an extended opcode is only
      an upper bound for the operands read: bytes it counts beyond them are not skipped. */
  function ReadOp(h: Header, s: Section, pos: nat): Outcome<(Op, nat)> {
    var (opcode, p) :- ReadFixed(s, 1, pos);
    if opcode >= h.opcodeBase then Value((Special(AsByte(opcode)), p))
    else if opcode != 0 then ReadStandard(s, AsByte(opcode), p)
    else
      var (length, q) :- ReadUleb(s, p);
      var (sub, r) :- ReadFixed(s, 1, q);
      var (op, next) :- ReadExtended(s, AsByte(sub), r);
      if next > Wrap64(q + length) then Throw(Format) else Value((op, next))
  }

  /** Advance by n operations, in arithmetic modulo `width`. */
  function Advance(h: Header, r: Regs, n: nat, width: nat): Regs
    requires 0 < h.maxOps && 0 < width
  {
    var ops := (r.opIndex + n) % width;
    r.(address := Wrap64(r.address + (h.minInst * (ops / h.maxOps)) % width),
       opIndex := ops % h.maxOps)
  }

  /** After a row: these registers do not persist. */
  function Cleared(r: Regs): Regs {
    r.(basicBlock := false, prologueEnd := false, epilogueBegin := false, discriminator := 0)
  }

  /** New registers, and the row emitted if any. */
  datatype Effect = Effect(regs: Regs, row: Option<Regs>)

  function Quiet(r: Regs): Effect {
    Effect(r, None)
  }

  function Emit(r: Regs): Effect {
    Effect(Cleared(r), Some(r))
  }

  /** The line and operation advances packed into a special opcode (section 6.2.5.1). */
  function SpecialLines(h: Header, opcode: byte): int
    requires 0 < h.lineRange
  {
    h.lineBase + ((opcode - h.opcodeBase) % 256) % h.lineRange
  }

  function SpecialOps(h: Header, opcode: byte): nat
    requires 0 < h.lineRange
  {
    QuotientBound((opcode - h.opcodeBase) % 256, h.lineRange);
    ((opcode - h.opcodeBase) % 256) / h.lineRange
  }

  function Apply(h: Header, r: Regs, op: Op): Effect
    requires 0 < h.maxOps && 0 < h.lineRange
  {
    match op
    case Special(opcode) =>
      Emit(Advance(h, r.(line := Wrap32(r.line + SpecialLines(h, opcode))), SpecialOps(h, opcode), B32))
    case Copy => Emit(r)
    case AdvancePc(n) => Quiet(Advance(h, r, n, B64))
    case AdvanceLine(n) => Quiet(r.(line := Wrap32(r.line + n)))
    case SetFile(n) => Quiet(r.(fileIndex := Wrap32(n)))
    case SetColumn(n) => Quiet(r.(column := Wrap32(n)))
    case NegateStmt => Quiet(r.(isStmt := !r.isStmt))
    case SetBasicBlock => Quiet(r.(basicBlock := true))
    case ConstAddPc => Quiet(Advance(h, r, SpecialOps(h, 255), B64))
    case FixedAdvancePc(n) => Quiet(r.(address := Wrap64(r.address + n), opIndex := 0))
    case SetPrologueEnd => Quiet(r.(prologueEnd := true))
    case SetEpilogueBegin => Quiet(r.(epilogueBegin := true))
    case SetIsa(n) => Quiet(r.(isa := Wrap32(n)))
    case EndSequence => Effect(Initial(h.defaultIsStmt), Some(r.(endSequence := true)))
    case SetAddress(a) => Quiet(r.(address := a, opIndex := 0))
    case DefineFile(_) => Quiet(r)
    case SetDiscriminator(n) => Quiet(r.(discriminator := Wrap32(n)))
  }

  lemma ReadOpAdvances(h: Header, s: Section, pos: nat)
    ensures var r := ReadOp(h, s, pos); r.Value? ==> pos < r.value.1 <= |s.data|
  {
    hide ReadUleb, ReadSleb;
  }

  /** The rows of a program executed in one pass, from given registers to the end of the
      section.  Opcodes after the last row are an error. */
  function Rows(h: Header, s: Section, r: Regs, pos: nat): Outcome<seq<Regs>>
    requires h.Valid()
    decreases |s.data| - pos, 1
  {
    if pos >= |s.data| then Value([]) else RowsAfter(h, s, r, pos)
  }

  /** The same when at least one more row must come. */
  function RowsAfter(h: Header, s: Section, r: Regs, pos: nat): Outcome<seq<Regs>>
    requires h.Valid()
    decreases |s.data| - pos, 0
  {
    if pos >= |s.data| then Throw(Format)
    else
      var (op, next) :- ReadOp(h, s, pos);
      ReadOpAdvances(h, s, pos);
      var e := Apply(h, r, op);
      match e.row
      case None => RowsAfter(h, s, e.regs, next)
      case Some(row) =>
        var rest :- Rows(h, s, e.regs, next);
        Value([row] + rest)
  }

  // Operation advance.

  lemma AdvanceBound(h: Header, r: Regs, n: nat, width: nat)
    requires 0 < h.maxOps && 0 < width
    ensures Advance(h, r, n, width).opIndex < h.maxOps
  {
  }

  /** The operation index stays below the maximum, whatever the opcode. */
  lemma OpIndexBound(h: Header, r: Regs, op: Op)
    requires h.Valid() && r.opIndex < h.maxOps
    ensures Apply(h, r, op).regs.opIndex < h.maxOps
    ensures Apply(h, r, op).row.Some? ==> Apply(h, r, op).row.value.opIndex < h.maxOps
  {
    hide Advance, SpecialOps, SpecialLines;
    match op
    case Special(opcode) =>
      AdvanceBound(h, r.(line := Wrap32(r.line + SpecialLines(h, opcode))), SpecialOps(h, opcode), B32);
    case AdvancePc(n) => AdvanceBound(h, r, n, B64);
    case ConstAddPc => AdvanceBound(h, r, SpecialOps(h, 255), B64);
    case _ =>
  }

  ghost predicate IndexesBelow(rows: seq<Regs>, max: nat) {
    forall i :: 0 <= i < |rows| ==> rows[i].opIndex < max
  }

  lemma IndexesCons(row: Regs, rest: seq<Regs>, max: nat)
    ensures IndexesBelow([], max)
    ensures row.opIndex < max && IndexesBelow(rest, max) ==> IndexesBelow([row] + rest, max)
  {
  }

  /** Hence in every row of every program. */
  lemma {:induction false} RowsOpIndex(h: Header, s: Section, r: Regs, pos: nat)
    requires h.Valid() && r.opIndex < h.maxOps
    ensures Rows(h, s, r, pos).Value? ==> IndexesBelow(Rows(h, s, r, pos).value, h.maxOps)
    ensures RowsAfter(h, s, r, pos).Value? ==> IndexesBelow(RowsAfter(h, s, r, pos).value, h.maxOps)
    decreases |s.data| - pos
  {
    hide ReadOp, Apply, IndexesBelow;
    IndexesCons(r, [], h.maxOps);
    if pos < |s.data| && RowsAfter(h, s, r, pos).Value? {
      var (op, next) := ReadOp(h, s, pos).value;
      var e := Apply(h, r, op);
      ReadOpAdvances(h, s, pos);
      OpIndexBound(h, r, op);
      RowsOpIndex(h, s, e.regs, next);
      if e.row.Some? {
        IndexesCons(e.row.value, Rows(h, s, e.regs, next).value, h.maxOps);
      }
    }
  }

  /** The number of operations an opcode advances by; only three kinds advance. */
  function Operations(h: Header, op: Op): nat
    requires 0 < h.lineRange && (op.Special? || op.AdvancePc? || op.ConstAddPc?)
  {
    match op
    case Special(opcode) => SpecialOps(h, opcode)
    case AdvancePc(n) => n
    case ConstAddPc => SpecialOps(h, 255)
  }

  /** The 32-bit arithmetic of special opcodes never wraps: they advance as the others do. */
  lemma NarrowAdvance(h: Header, r: Regs, n: nat)
    requires h.Valid() && r.opIndex < h.maxOps && n < 256
    ensures Advance(h, r, n, B32) == Advance(h, r, n, B64)
  {
    var ops := r.opIndex + n;
    SmallMod(ops, B32);
    SmallMod(ops, B64);
    QuotientBound(ops, h.maxOps);
    MulMono(ops / h.maxOps, 511, h.minInst);
    MulMono(0, ops / h.maxOps, h.minInst);
    assert 511 * h.minInst < B32;
    SmallMod(h.minInst * (ops / h.maxOps), B32);
    SmallMod(h.minInst * (ops / h.maxOps), B64);
  }

  /** Splitting x + b after a division of x. */
  lemma DivideInTwo(x: nat, b: nat, m: nat)
    requires m > 0
    ensures (x + b) / m == x / m + (x % m + b) / m
    ensures (x + b) % m == (x % m + b) % m
  {
    var y := x % m + b;
    assert x + b == (x / m + y / m) * m + y % m;
    DivModUnique(x + b, m, x / m + y / m, y % m);
  }

  /** The address after advancing over a number of whole instructions. */
  function Moved(address: u64, minInst: nat, instructions: int): u64 {
    Wrap64(address + (minInst * instructions) % B64)
  }

  lemma AdvanceIs(h: Header, r: Regs, n: nat)
    requires 0 < h.maxOps && r.opIndex + n < B64
    ensures var a := Advance(h, r, n, B64);
            a == r.(address := Moved(r.address, h.minInst, (r.opIndex + n) / h.maxOps),
                    opIndex := (r.opIndex + n) % h.maxOps)
  {
    SmallMod(r.opIndex + n, B64);
  }

  /** Advancing by a and then by b is advancing by a + b, as long as the operation count
      itself does not wrap; the address may. */
  lemma AdvanceAdds(h: Header, r: Regs, a: nat, b: nat)
    requires h.Valid() && r.opIndex + a + b < B64
    ensures Advance(h, Advance(h, r, a, B64), b, B64) == Advance(h, r, a + b, B64)
  {
    hide Advance, Moved;
    var x, m := r.opIndex + a, h.maxOps;
    RemainderBelow(x, m);
    AdvanceIs(h, r, a);
    AdvanceIs(h, Advance(h, r, a, B64), b);
    AdvanceIs(h, r, a + b);
    DivideInTwo(x, b, m);
    AddressAdds(r.address, h.minInst, x / m, (x % m + b) / m);
  }

  lemma RemainderBelow(x: nat, m: nat)
    requires m > 0
    ensures 0 <= x % m <= x
  {
    QuotientBound(x, m);
    MulMono(0, x / m, m);
  }

  lemma AddressAdds(address: u64, minInst: nat, p: int, q: int)
    ensures Moved(Moved(address, minInst, p), minInst, q) == Moved(address, minInst, p + q)
  {
    Distribute(minInst, p, q);
    ModAddTwice(address, minInst * p, minInst * q, B64);
  }

  /** Two advancing opcodes in a row, of any kinds, move the address and operation index as
      one advance by the sum of their operations. */
  lemma AdvancesAdd(h: Header, r: Regs, op1: Op, op2: Op)
    requires h.Valid() && r.opIndex < h.maxOps
    requires (op1.Special? || op1.AdvancePc? || op1.ConstAddPc?)
    requires (op2.Special? || op2.AdvancePc? || op2.ConstAddPc?)
    requires r.opIndex + Operations(h, op1) + Operations(h, op2) < B64
    ensures var r2 := Apply(h, Apply(h, r, op1).regs, op2).regs;
            var once := Advance(h, r, Operations(h, op1) + Operations(h, op2), B64);
            (r2.address, r2.opIndex) == (once.address, once.opIndex)
  {
    hide Advance, SpecialOps, SpecialLines;
    OpIndexBound(h, r, op1);
    AppliedAdvance(h, r, op1);
    AppliedAdvance(h, Apply(h, r, op1).regs, op2);
    AdvancePlace(h, Apply(h, r, op1).regs, Advance(h, r, Operations(h, op1), B64), Operations(h, op2));
    AdvanceAdds(h, r, Operations(h, op1), Operations(h, op2));
  }

  /** fixed_advance_pc counts bytes, not operations: wherever it starts, two of them are one by
      the sum, and the operation index is 0. */
  lemma FixedAdvancesAdd(h: Header, r: Regs, a: u64, b: u64)
    requires h.Valid() && a + b < B64
    ensures var r2 := Apply(h, Apply(h, r, FixedAdvancePc(a)).regs, FixedAdvancePc(b)).regs;
            r2 == Apply(h, r, FixedAdvancePc(a + b)).regs && r2.opIndex == 0 &&
            (r.address + a + b < B64 ==> r2.address == r.address + a + b)
  {
    hide Apply, Wrap64, Wrap32;
    FixedAdvance(h, r, a);
    FixedAdvance(h, Apply(h, r, FixedAdvancePc(a)).regs, b);
    FixedAdvance(h, r, a + b);
    WrapTwice(r.address, a, b);
  }

  lemma FixedAdvance(h: Header, r: Regs, n: u64)
    requires h.Valid()
    ensures Apply(h, r, FixedAdvancePc(n)).regs == r.(address := Wrap64(r.address + n), opIndex := 0)
  {
    hide Wrap64, Wrap32;
  }

  lemma WrapTwice(address: u64, a: u64, b: u64)
    ensures Wrap64(Wrap64(address + a) + b) == Wrap64(address + a + b)
    ensures address + a + b < B64 ==> Wrap64(address + a + b) == address + a + b
  {
    ModAdd(address + a, b, B64);
    if address + a + b < B64 {
      SmallMod(address + a + b, B64);
    }
  }

  lemma AppliedAdvance(h: Header, r: Regs, op: Op)
    requires h.Valid() && r.opIndex < h.maxOps
    requires op.Special? || op.AdvancePc? || op.ConstAddPc?
    ensures var r' := Apply(h, r, op).regs;
            var a := Advance(h, r, Operations(h, op), B64);
            r'.address == a.address && r'.opIndex == a.opIndex
  {
    hide Advance, SpecialOps, SpecialLines;
    if op.Special? {
      var lined := r.(line := Wrap32(r.line + SpecialLines(h, op.opcode)));
      SpecialOpsBound(h, op.opcode);
      NarrowAdvance(h, lined, SpecialOps(h, op.opcode));
      AdvancePlace(h, lined, r, SpecialOps(h, op.opcode));
    }
  }

  lemma SpecialOpsBound(h: Header, opcode: byte)
    requires h.Valid()
    ensures SpecialOps(h, opcode) < 256
  {
    QuotientBound((opcode - h.opcodeBase) % 256, h.lineRange);
  }

  /** An advance depends on the address and operation index only. */
  lemma AdvancePlace(h: Header, a: Regs, b: Regs, n: nat)
    requires h.Valid() && a.address == b.address && a.opIndex == b.opIndex
    ensures var x, y := Advance(h, a, n, B64), Advance(h, b, n, B64);
            x.address == y.address && x.opIndex == y.opIndex
  {
  }

  /** The unbounded sum behind an opcode's change of the address. */
  function Climb(h: Header, r: Regs, op: Op): int
    requires h.Valid()
  {
    match op
    case Special(opcode) => r.address + h.minInst * ((r.opIndex + SpecialOps(h, opcode)) / h.maxOps)
    case AdvancePc(n) => r.address + h.minInst * ((r.opIndex + n) / h.maxOps)
    case ConstAddPc => r.address + h.minInst * ((r.opIndex + SpecialOps(h, 255)) / h.maxOps)
    case FixedAdvancePc(n) => r.address + n
    case _ => r.address
  }

  /** No opcode of the program sets an address below the one reached - none at the start of a
      sequence can - and none makes the address, or the sum of the operation index and an
      advance, wrap around. */
  ghost predicate Climbing(h: Header, s: Section, r: Regs, pos: nat)
    requires h.Valid()
    decreases |s.data| - pos
  {
    pos >= |s.data| || ReadOp(h, s, pos).Throw? ||
    var (op, next) := ReadOp(h, s, pos).value;
    ReadOpAdvances(h, s, pos);
    && (op.SetAddress? ==> r.address <= op.address)
    && Climb(h, r, op) < B64 && (op.AdvancePc? ==> r.opIndex + op.ops < B64)
    && Climbing(h, s, Apply(h, r, op).regs, next)
  }

  lemma AdvanceClimbs(h: Header, r: Regs, n: nat)
    requires h.Valid() && r.opIndex + n < B64
    requires r.address + h.minInst * ((r.opIndex + n) / h.maxOps) < B64
    ensures Advance(h, r, n, B64).address >= r.address
  {
    SmallMod(r.opIndex + n, B64);
    MulMono(0, (r.opIndex + n) / h.maxOps, h.minInst);
    SmallMod(h.minInst * ((r.opIndex + n) / h.maxOps), B64);
    SmallMod(r.address + h.minInst * ((r.opIndex + n) / h.maxOps), B64);
  }

  lemma OpClimbs(h: Header, r: Regs, op: Op)
    requires h.Valid() && r.opIndex < h.maxOps && (op.SetAddress? ==> r.address <= op.address)
    requires Climb(h, r, op) < B64 && (op.AdvancePc? ==> r.opIndex + op.ops < B64)
    ensures !op.EndSequence? ==> Apply(h, r, op).regs.address >= r.address
    ensures Apply(h, r, op).row.Some? ==>
      var row := Apply(h, r, op).row.value;
      row.address >= r.address && (!op.EndSequence? ==> row.address == Apply(h, r, op).regs.address)
  {
    hide Advance, SpecialOps, SpecialLines;
    match op
    case Special(opcode) =>
      SpecialOpsBound(h, opcode);
      AppliedAdvance(h, r, op);
      AdvanceClimbs(h, r, SpecialOps(h, opcode));
    case AdvancePc(n) => AdvanceClimbs(h, r, n);
    case ConstAddPc =>
      SpecialOpsBound(h, 255);
      AdvanceClimbs(h, r, SpecialOps(h, 255));
    case FixedAdvancePc(n) => SmallMod(r.address + n, B64);
    case _ =>
  }

  /** Within a sequence the rows' addresses never decrease. */
  ghost predicate Ascending(rows: seq<Regs>, from: u64) {
    rows != [] ==>
      rows[0].address >= from &&
      forall i :: 0 < i < |rows| && !rows[i - 1].endSequence ==> rows[i - 1].address <= rows[i].address
  }

  lemma AscendingCons(row: Regs, rest: seq<Regs>, from: u64, next: u64)
    requires row.address >= from && Ascending(rest, next)
    requires row.endSequence || row.address <= next
    ensures Ascending([row] + rest, from)
  {
    var rows := [row] + rest;
    forall i | 0 < i < |rows| && !rows[i - 1].endSequence
      ensures rows[i - 1].address <= rows[i].address
    {
      assert rows[i] == rest[i - 1];
      assert i > 1 ==> rows[i - 1] == rest[i - 2];
    }
  }

  lemma RowEndsSequence(h: Header, r: Regs, op: Op)
    requires h.Valid()
    ensures op.EndSequence? && Apply(h, r, op).row.Some? ==> Apply(h, r, op).row.value.endSequence
  {
  }

  /** The rows emitted until the program ends or something in it is malformed. */
  function Emitted(h: Header, s: Section, r: Regs, pos: nat): seq<Regs>
    requires h.Valid()
    decreases |s.data| - pos
  {
    if pos >= |s.data| || ReadOp(h, s, pos).Throw? then []
    else
      var (op, next) := ReadOp(h, s, pos).value;
      ReadOpAdvances(h, s, pos);
      var e := Apply(h, r, op);
      (match e.row case None => [] case Some(row) => [row]) + Emitted(h, s, e.regs, next)
  }

  /** In a well-formed program these are all its rows. */
  lemma {:induction false} RowsAreEmitted(h: Header, s: Section, r: Regs, pos: nat)
    requires h.Valid()
    ensures Rows(h, s, r, pos).Value? ==> Rows(h, s, r, pos).value == Emitted(h, s, r, pos)
    ensures RowsAfter(h, s, r, pos).Value? ==> RowsAfter(h, s, r, pos).value == Emitted(h, s, r, pos)
    decreases |s.data| - pos
  {
    hide ReadOp, Apply;
    if pos < |s.data| && ReadOp(h, s, pos).Value? {
      var (op, next) := ReadOp(h, s, pos).value;
      ReadOpAdvances(h, s, pos);
      RowsAreEmitted(h, s, Apply(h, r, op).regs, next);
      assert [] + Emitted(h, s, Apply(h, r, op).regs, next) == Emitted(h, s, Apply(h, r, op).regs, next);
    }
  }

  lemma {:induction false} RowsAscend(h: Header, s: Section, r: Regs, pos: nat)
    requires h.Valid() && r.opIndex < h.maxOps && Climbing(h, s, r, pos)
    ensures Ascending(Emitted(h, s, r, pos), r.address)
    decreases |s.data| - pos
  {
    hide ReadOp, Apply, Ascending, Climb;
    AscendingNone(r.address);
    if pos < |s.data| && ReadOp(h, s, pos).Value? {
      var (op, next) := ReadOp(h, s, pos).value;
      var e := Apply(h, r, op);
      var rest := Emitted(h, s, e.regs, next);
      ReadOpAdvances(h, s, pos);
      OpIndexBound(h, r, op);
      OpClimbs(h, r, op);
      RowEndsSequence(h, r, op);
      RowsAscend(h, s, e.regs, next);
      if e.row.Some? {
        AscendingCons(e.row.value, rest, r.address, e.regs.address);
      } else {
        QuietIsNotEnd(h, r, op);
        AscendingFrom(rest, e.regs.address, r.address);
        assert [] + rest == rest;
      }
    }
  }

  lemma AscendingNone(from: u64)
    ensures Ascending([], from)
  {
  }

  lemma AscendingFrom(rows: seq<Regs>, from: u64, lower: u64)
    requires Ascending(rows, from) && lower <= from
    ensures Ascending(rows, lower)
  {
  }

  lemma QuietIsNotEnd(h: Header, r: Regs, op: Op)
    requires h.Valid() && Apply(h, r, op).row == None
    ensures !op.EndSequence?
  {
  }
}
