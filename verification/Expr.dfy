/** The expression stack machine (sections 2.5.1 and 2.6.1.1 of DWARF Version 4). */
module Exprs {
  import opened Outcomes
  import opened Words
  import opened Sections
  import opened SmallVectors

  /** The callbacks of an evaluation context; None when one throws expr_error. */
  datatype Context = Context(
    reg: u32 -> Option<u64>,
    deref: (u64, nat) -> Option<u64>,
    xderef: (u64, u64, nat) -> Option<u64>,
    tls: u64 -> Option<u64>)

  datatype UnaryOp = Abs | Neg | Not
  datatype BinaryOp = AndOp | DivOp | MinusOp | ModOp | MulOp | OrOp | PlusOp | ShlOp | ShrOp | ShraOp | XorOp
  datatype Relation = Eq | Ge | Gt | Le | Lt | Ne

  datatype Instr =
    | Const(value: u64)
    | RegOffset(reg: u32, offset: int)
    | Dup | Drop | Pick(n: nat) | Over | Swap | Rot
    | Load(size: nat)
    | LoadSpace(size: nat)
    | Tls
    | Unary(unary: UnaryOp)
    | PlusConst(addend: u64)
    | Binary(binary: BinaryOp)
    | Compare(relation: Relation)
    | Skip(distance: int)
    | Bra(distance: int)
    | Nop
    | Register(value: u64)
    | ImplicitValue(start: nat, len: u64)
    | StackValue

  // Decoding.

  /** Opcodes without operands. */
  function Plain(addrSize: nat, op: byte): Option<Instr> {
    match op
    case 0x06 => Some(Load(addrSize)) case 0x18 => Some(LoadSpace(addrSize))
    case 0x12 => Some(Dup) case 0x13 => Some(Drop) case 0x14 => Some(Over)
    case 0x16 => Some(Swap) case 0x17 => Some(Rot)
    case 0x19 => Some(Unary(Abs)) case 0x1f => Some(Unary(Neg)) case 0x20 => Some(Unary(Not))
    case 0x1a => Some(Binary(AndOp)) case 0x1b => Some(Binary(DivOp))
    case 0x1c => Some(Binary(MinusOp)) case 0x1d => Some(Binary(ModOp))
    case 0x1e => Some(Binary(MulOp)) case 0x21 => Some(Binary(OrOp))
    case 0x22 => Some(Binary(PlusOp)) case 0x24 => Some(Binary(ShlOp))
    case 0x25 => Some(Binary(ShrOp)) case 0x26 => Some(Binary(ShraOp))
    case 0x27 => Some(Binary(XorOp))
    case 0x29 => Some(Compare(Eq)) case 0x2a => Some(Compare(Ge)) case 0x2b => Some(Compare(Gt))
    case 0x2c => Some(Compare(Le)) case 0x2d => Some(Compare(Lt)) case 0x2e => Some(Compare(Ne))
    case 0x96 => Some(Nop) case 0x9b => Some(Tls) case 0x9f => Some(StackValue)
    case _ => None
  }

  /** What is thrown for the opcodes that are not implemented or not known. */
  function Rejected(op: byte): Error {
    if op in {0x91, 0x93, 0x97, 0x98, 0x99, 0x9a, 0x9c, 0x9d} then Runtime else Expression
  }

  function Signed2(s: Section, p: nat): Outcome<(int, nat)> {
    ReadFixedSigned(s, 2, p)
  }

  /** A constant operand, as the 64-bit word that is pushed. */
  function ReadConst(s: Section, op: byte, p: nat): Outcome<(u64, nat)>
    requires op == 0x03 || 0x08 <= op <= 0x11
  {
    match op
    case 0x03 => ReadAddress(s, p)
    case 0x08 => ReadFixed(s, 1, p)
    case 0x0a => ReadFixed(s, 2, p)
    case 0x0c => ReadFixed(s, 4, p)
    case 0x0e => ReadFixed(s, 8, p)
    case 0x10 => ReadUleb(s, p)
    case _ =>
      var (i, next) :-
        match op
        case 0x09 => ReadFixedSigned(s, 1, p)
        case 0x0b => ReadFixedSigned(s, 2, p)
        case 0x0d => ReadFixedSigned(s, 4, p)
        case 0x0f => ReadFixedSigned(s, 8, p)
        case _ => ReadSleb(s, p);
      Value((Wrap64(i), next))
  }

  function DecodeOperands(s: Section, op: byte, p: nat): Outcome<(Instr, nat)> {
    match op
    case 0x15 =>
      var (n, next) :- ReadFixed(s, 1, p);
      Value((Pick(n), next))
    case 0x23 =>
      var (u, next) :- ReadUleb(s, p);
      Value((PlusConst(u), next))
    case 0x28 =>
      var (d, next) :- Signed2(s, p);
      Value((Bra(d), next))
    case 0x2f =>
      var (d, next) :- Signed2(s, p);
      Value((Skip(d), next))
    case 0x90 =>
      var (r, next) :- ReadUleb(s, p);
      Value((Register(r), next))
    case 0x92 =>
      var (r, q) :- ReadUleb(s, p);
      var (i, next) :- ReadSleb(s, q);
      Value((RegOffset(Wrap32(r), i), next))
    case 0x94 =>
      var (n, next) :- ReadFixed(s, 1, p);
      if n > s.addrSize then Throw(Expression) else Value((Load(n), next))
    case 0x95 =>
      var (n, next) :- ReadFixed(s, 1, p);
      if n > s.addrSize then Throw(Expression) else Value((LoadSpace(n), next))
    case 0x9e =>
      // The bytes of the block are checked to be there, but not stepped over.
      var (n, next) :- ReadUleb(s, p);
      if next >= |s.data| || |s.data| - next < n then Throw(Underflow)
      else Value((ImplicitValue(next, n), next))
    case _ => Throw(Rejected(op))
  }

  /** The operation at an offset, its operands read, and the offset after it. */
  function Decode(s: Section, pos: nat): Outcome<(Instr, nat)> {
    var (b, p) :- ReadFixed(s, 1, pos);
    DecodeOp(s, AsByte(b), p)
  }

  function DecodeOp(s: Section, op: byte, p: nat): Outcome<(Instr, nat)> {
    if 0x30 <= op <= 0x4f then Value((Const(op - 0x30), p))
    else if 0x50 <= op <= 0x6f then Value((Register(op - 0x50), p))
    else if 0x70 <= op <= 0x8f then
      var (i, next) :- ReadSleb(s, p);
      Value((RegOffset(op - 0x70, i), next))
    else if op == 0x03 || 0x08 <= op <= 0x11 then
      var (v, next) :- ReadConst(s, op, p);
      Value((Const(v), next))
    else
      match Plain(s.addrSize, op)
      case Some(instr) => Value((instr, p))
      case None => DecodeOperands(s, op, p)
  }

  lemma ConstAdvances(s: Section, op: byte, p: nat)
    requires op == 0x03 || 0x08 <= op <= 0x11
    ensures ReadConst(s, op, p).Value? ==> p < ReadConst(s, op, p).value.1 <= |s.data|
  {
    hide ReadUleb, ReadSleb;
  }

  lemma OperandsAdvance(s: Section, op: byte, p: nat)
    ensures DecodeOperands(s, op, p).Value? ==> p < DecodeOperands(s, op, p).value.1 <= |s.data|
  {
    hide ReadUleb, ReadSleb;
  }

  lemma DecodeAdvances(s: Section, pos: nat)
    ensures Decode(s, pos).Value? ==> pos < Decode(s, pos).value.1 <= |s.data|
  {
    hide Plain, ReadConst, DecodeOperands, ReadSleb;
    var code := ReadFixed(s, 1, pos);
    if code.Value? {
      var op, p := AsByte(code.value.0), code.value.1;
      OperandsAdvance(s, op, p);
      if op == 0x03 || 0x08 <= op <= 0x11 {
        ConstAdvances(s, op, p);
      }
    }
  }

  // Execution.

  /** A location description made directly; otherwise the top of the stack is the result. */
  datatype Location = InRegister(value: u64) | Implicit(start: nat, len: u64) | Literal(value: u64)

  datatype Result = Empty | Address(value: u64) | Located(location: Location)

  /** The top of the stack is its last element; `cap` is the capacity of the buffer it is in. */
  datatype State = State(stack: seq<u64>, cap: nat, loc: Option<Location>, pos: nat)

  /** Entries the stack holds without a buffer on the heap. */
  const INLINE := 8

  /** What the depth check before an operation asks for. */
  function Needs(i: Instr): nat {
    match i
    case Dup | Drop | Load(_) | Tls | Unary(_) | PlusConst(_) | Bra(_) | StackValue => 1
    case Over | Swap | LoadSpace(_) | Binary(_) | Compare(_) => 2
    case Rot => 3
    case Pick(n) => n
    case _ => 0
  }

  function Required(v: Option<u64>): Outcome<u64> {
    match v case None => Throw(Expression) case Some(x) => Value(x)
  }

  /** C++ division of signed numbers, truncating toward zero. */
  function TruncDiv(a: int, b: int): int
    requires b != 0
  {
    if a >= 0 then (if b > 0 then a / b else -(a / -b))
    else if b > 0 then -(-a / b) else -a / -b
  }

  /** C++ leaves signed overflow undefined. */
  function SignedResult(x: int): Outcome<u64> {
    if -B63 <= x < B63 then Value(Wrap64(x)) else Throw(Undefined)
  }

  function UnaryValue(op: UnaryOp, x: u64): Outcome<u64> {
    match op
    case Abs => if Signed64(x) < 0 then SignedResult(-Signed64(x)) else Value(x)
    case Neg => SignedResult(-Signed64(x))
    case Not => Value(B64 - 1 - x)
  }

  function Shr64(x: u64, n: u64): u64 {
    if n < 64 then Shrunk(x, Pow2(n)) else 0
  }

  function Shrunk(x: u64, p: nat): u64
    requires p > 0
  {
    QuotientBound(x, p);
    x / p
  }

  function Bitwise(op: BitOp, a: u64, b: u64): u64 {
    BitsBound64(op, a, b);
    Bits(op, a, b)
  }

  /** C++ leaves division by zero, and the one quotient that does not fit, undefined. */
  function Quotient(dividend: u64, divisor: u64): Outcome<u64> {
    if divisor == 0 || (dividend == B63 && divisor == B64 - 1) then Throw(Undefined)
    else Value(Wrap64(TruncDiv(Signed64(dividend), Signed64(divisor))))
  }

  /** A negative number is negated, shifted, and negated back. */
  function Shra64(x: u64, n: u64): Outcome<u64> {
    if Signed64(x) < 0 then
      var positive :- SignedResult(-Signed64(x));
      Value(Wrap64(0 - Shr64(positive, n)))
    else Value(Shr64(x, n))
  }

  /** The value of `second op top`; for a division it is `top / second`. */
  function BinaryValue(op: BinaryOp, second: u64, top: u64): Outcome<u64> {
    match op
    case AndOp => Value(Bitwise(And, second, top))
    case OrOp => Value(Bitwise(Or, second, top))
    case XorOp => Value(Bitwise(Xor, second, top))
    case PlusOp => Value(Wrap64(second + top))
    case MinusOp => Value(Wrap64(second - top))
    case MulOp => Value(Wrap64(second * top))
    case DivOp => Quotient(top, second)
    case ModOp => if top == 0 then Throw(Undefined) else Value(Remainder(second, top))
    case ShlOp => Value(if top < 64 then Shl64(second, top) else 0)
    case ShrOp => Value(Shr64(second, top))
    case ShraOp => Shra64(second, top)
  }

  function Remainder(x: u64, m: u64): u64
    requires m > 0
  {
    x % m
  }

  /** All six relations are computed as `<=`. */
  function RelationHolds(rel: Relation, second: u64, top: u64): bool {
    Signed64(second) <= Signed64(top)
  }

  /** The stack after an operation. */
  function NewStack(ctx: Context, i: Instr, st: seq<u64>): Outcome<seq<u64>>
    requires |st| >= Needs(i)
  {
    var n := |st|;
    match i
    case Const(v) => Value(st + [v])
    case RegOffset(r, offset) =>
      var v :- Required(ctx.reg(r));
      var sum :- SignedResult(Signed64(v) + offset);
      Value(st + [sum])
    case Dup => Value(st + [st[n - 1]])
    case Drop => Value(st[..n - 1])
    case Pick(k) => if k == n then Throw(Undefined) else Value(st + [st[n - 1 - k]])
    case Over => Value(st + [st[n - 2]])
    case Swap => Value(st[..n - 2] + [st[n - 1], st[n - 2]])
    case Rot => Value(st[..n - 3] + [st[n - 1], st[n - 3], st[n - 2]])
    case Load(size) =>
      var v :- Required(ctx.deref(st[n - 1], size));
      Value(st[..n - 1] + [v])
    case LoadSpace(size) =>
      var v :- Required(ctx.xderef(st[n - 1], st[n - 2], size));
      Value(st[..n - 2] + [v])
    case Tls =>
      var v :- Required(ctx.tls(st[n - 1]));
      Value(st[..n - 1] + [v])
    case Unary(op) =>
      var v :- UnaryValue(op, st[n - 1]);
      Value(st[..n - 1] + [v])
    case PlusConst(u) => Value(st[..n - 1] + [Wrap64(st[n - 1] + u)])
    case Binary(op) =>
      var v :- BinaryValue(op, st[n - 2], st[n - 1]);
      Value(st[..n - 2] + [v])
    case Compare(rel) =>
      Value(st[..n - 2] + [if RelationHolds(rel, st[n - 2], st[n - 1]) then 1 else 0])
    case Bra(_) => Value(st[..n - 1])
    case _ => Value(st)
  }

  /** The operations that push an entry of the stack itself. */
  predicate Copies(i: Instr) {
    i.Dup? || i.Pick? || i.Over?
  }

  /** The stack after an operation, with the capacity of its buffer.  A copy out of a buffer
      that its own push replaces reads freed memory. */
  function Operated(ctx: Context, i: Instr, st: seq<u64>, cap: nat): Outcome<(seq<u64>, nat)>
    requires |st| >= Needs(i)
  {
    if Copies(i) && HeapFull(INLINE, |st|, cap) then Throw(Undefined)
    else
      var stack :- NewStack(ctx, i, st);
      Value((stack, Room(cap, |stack|)))
  }

  /** The offset of the next operation. */
  function Target(i: Instr, st: seq<u64>, next: nat): int
    requires |st| >= Needs(i)
  {
    match i
    case Skip(d) => next + d
    case Bra(d) => if st[|st| - 1] != 0 then next + d else next
    case _ => next
  }

  function NewLocation(i: Instr, st: seq<u64>, loc: Option<Location>): Option<Location>
    requires |st| >= Needs(i)
  {
    match i
    case Register(r) => Some(InRegister(r))
    case ImplicitValue(start, len) => Some(Implicit(start, len))
    case StackValue => Some(Literal(st[|st| - 1]))
    case _ => loc
  }

  /** A jump before the start of the expression is undefined in C++; one past its end stops. */
  function Exec(ctx: Context, i: Instr, st: State, next: nat): Outcome<State> {
    if |st.stack| < Needs(i) then Throw(StackUnderflow)
    else
      var (stack, cap) :- Operated(ctx, i, st.stack, st.cap);
      var target := Target(i, st.stack, next);
      if target < 0 then Throw(Undefined)
      else Value(State(stack, cap, NewLocation(i, st.stack, st.loc), target))
  }

  function Step(s: Section, ctx: Context, st: State): Outcome<State> {
    var (i, next) :- Decode(s, st.pos);
    Exec(ctx, i, st, next)
  }

  function Finish(st: State): Outcome<Result> {
    match st.loc
    case Some(l) => Value(Located(l))
    case None => if st.stack == [] then Throw(Expression) else Value(Address(st.stack[|st.stack| - 1]))
  }

  /** The whole evaluation, of at most `fuel` operations. */
  function Run(s: Section, ctx: Context, st: State, fuel: nat): Outcome<Result>
    decreases fuel
  {
    if st.pos >= |s.data| then Finish(st)
    else if fuel == 0 then Throw(Timeout)
    else
      var st' :- Step(s, ctx, st);
      Run(s, ctx, st', fuel - 1)
  }

  /** Argument 0 ends up on top. */
  function Initial(args: seq<u64>): seq<u64> {
    if args == [] then [] else Initial(args[1..]) + [args[0]]
  }

  /** The state before the first operation; room for the arguments is reserved at once. */
  function Start(args: seq<u64>): State {
    State(Initial(args), Room(INLINE, |args|), None, 0)
  }

  /** The expression's own section; the source does not check that it is inside the unit's. */
  function Extent(cu: Section, offset: nat, len: nat): Outcome<Section> {
    if offset + len > |cu.data| then Throw(Undefined)
    else Value(cu.(data := cu.data[offset..offset + len]))
  }

  function Evaluate(cu: Section, offset: nat, len: nat, ctx: Context, args: seq<u64>, fuel: nat): Outcome<Result> {
    var s :- Extent(cu, offset, len);
    if s.data == [] then Value(Empty) else Run(s, ctx, Start(args), fuel)
  }
}
