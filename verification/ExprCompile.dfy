/** Compiling integer expression trees to operations: evaluating the bytes computes the
    tree's value modulo 2^64. */
module ExprCompile {
  import opened Outcomes
  import opened Words
  import opened Sections
  import opened SmallVectors
  import opened Exprs
  import opened ExprRuns
  import opened ExprEncode
  import Leb128

  datatype Tree =
    | Num(n: int)
    | Sized(size: nat, signed: bool, n: int)  // the fixed-size constants of 1, 2, 4 and 8 bytes
    | Reg(reg: u32, offset: int)
    | Un(unary: UnaryOp, arg: Tree)
    | Add(arg: Tree, addend: u64)
    | Deref(width: byte, arg: Tree)
    | Local(arg: Tree)  // the address of a thread-local object
    | Space(width: byte, left: Tree, right: Tree)  // the address space, then the address in it
    | Bin(binary: BinaryOp, left: Tree, right: Tree)
    | Rel(relation: Relation, left: Tree, right: Tree)
    | If(cond: Tree, yes: Tree, no: Tree)

  // What a tree means.  Sums, differences, products and left shifts are those of the integers;
  // operators that look at a value's bits, sign or size see it modulo 2^64.

  function SignedWord(x: int): int {
    Signed64(Wrap64(x))
  }

  /** A number that the signed arithmetic of the source can represent. */
  function InRange(x: int): Outcome<int> {
    if -B63 <= x < B63 then Value(x) else Throw(Undefined)
  }

  function UnaryMeaning(op: UnaryOp, x: int): Outcome<int> {
    match op
    case Abs => InRange(if SignedWord(x) < 0 then -SignedWord(x) else SignedWord(x))
    case Neg => InRange(-SignedWord(x))
    case Not => Value(-1 - x)
  }

  /** The division operation divides its second operand by its first, and the right shift of
      a negative number rounds toward zero: so the code has it. */
  function BinaryMeaning(op: BinaryOp, x: int, y: int): Outcome<int> {
    match op
    case PlusOp => Value(x + y)
    case MinusOp => Value(x - y)
    case MulOp => Value(x * y)
    case ShlOp => Value(x * Pow2(Wrap64(y)))
    case AndOp => Value(Bits(And, Wrap64(x), Wrap64(y)))
    case OrOp => Value(Bits(Or, Wrap64(x), Wrap64(y)))
    case XorOp => Value(Bits(Xor, Wrap64(x), Wrap64(y)))
    case ShrOp => Value(Wrap64(x) / Pow2(Wrap64(y)))
    case ShraOp =>
      if SignedWord(x) == -B63 then Throw(Undefined) else Value(TruncDiv(SignedWord(x), Pow2(Wrap64(y))))
    case ModOp => if Wrap64(y) == 0 then Throw(Undefined) else Value(Wrap64(x) % Wrap64(y))
    case DivOp =>
      if SignedWord(x) == 0 || (SignedWord(y) == -B63 && SignedWord(x) == -1) then Throw(Undefined)
      else Value(TruncDiv(SignedWord(y), SignedWord(x)))
  }

  /** What a callback answers; without an answer it throws expr_error. */
  function Called(v: Option<u64>): Outcome<int> {
    if v.Some? then Value(v.value) else Throw(Expression)
  }

  function Meaning(ctx: Context, e: Tree): Outcome<int> {
    match e
    case Num(n) => Value(n)
    case Sized(_, _, n) => Value(n)
    case Reg(r, offset) =>
      var v :- Called(ctx.reg(r));
      InRange(Signed64(v) + offset)
    case Un(op, a) =>
      var x :- Meaning(ctx, a);
      UnaryMeaning(op, x)
    case Add(a, u) =>
      var x :- Meaning(ctx, a);
      Value(x + u)
    case Deref(size, a) =>
      var x :- Meaning(ctx, a);
      Called(ctx.deref(Wrap64(x), size))
    case Local(a) =>
      var x :- Meaning(ctx, a);
      Called(ctx.tls(Wrap64(x)))
    case Space(size, a, b) =>
      var x :- Meaning(ctx, a);
      var y :- Meaning(ctx, b);
      Called(ctx.xderef(Wrap64(y), Wrap64(x), size))
    case Bin(op, a, b) =>
      var x :- Meaning(ctx, a);
      var y :- Meaning(ctx, b);
      BinaryMeaning(op, x, y)
    case Rel(_, a, b) =>
      var x :- Meaning(ctx, a);
      var y :- Meaning(ctx, b);
      Value(if SignedWord(x) <= SignedWord(y) then 1 else 0)
    case If(c, yes, no) =>
      var x :- Meaning(ctx, c);
      if Wrap64(x) != 0 then Meaning(ctx, yes) else Meaning(ctx, no)
  }

  // The compiler.

  function Code(ord: Order, e: Tree): seq<byte> {
    match e
    case Num(n) => NumCode(n)
    case Sized(size, signed, n) => SizedCode(ord, size, signed, n)
    case Reg(r, offset) => RegCode(r, offset)
    case Un(op, a) => Code(ord, a) + [UnaryCode(op)]
    case Add(a, u) => Code(ord, a) + ([0x23] + Leb128.EncodeUnsigned(u, 0))
    case Deref(size, a) => Code(ord, a) + ([0x94] + [size])
    case Local(a) => Code(ord, a) + [0x9b]
    case Space(size, a, b) => Code(ord, a) + Code(ord, b) + ([0x95] + [size])
    case Bin(op, a, b) => Code(ord, a) + Code(ord, b) + [BinaryCode(op)]
    case Rel(rel, a, b) => Code(ord, a) + Code(ord, b) + [RelationCode(rel)]
    case If(c, yes, no) =>
      var skip := Jump(ord, 0x2f, |Code(ord, yes)|);
      Code(ord, c) + Jump(ord, 0x28, |Code(ord, no)| + |skip|) + (Code(ord, no) + skip) + Code(ord, yes)
  }

  /** Jumps fit in 16 bits, register offsets in 64, sized constants in their size, and sizes
      read in an address. */
  ghost predicate Fits(ord: Order, addrSize: nat, e: Tree) {
    match e
    case Num(_) => true
    case Sized(size, signed, n) => SizedFits(size, signed, n)
    case Reg(_, offset) => -B63 <= offset < B63
    case Un(_, a) => Fits(ord, addrSize, a)
    case Add(a, _) => Fits(ord, addrSize, a)
    case Deref(size, a) => size <= addrSize && Fits(ord, addrSize, a)
    case Local(a) => Fits(ord, addrSize, a)
    case Space(size, a, b) => size <= addrSize && Fits(ord, addrSize, a) && Fits(ord, addrSize, b)
    case Bin(_, a, b) => Fits(ord, addrSize, a) && Fits(ord, addrSize, b)
    case Rel(_, a, b) => Fits(ord, addrSize, a) && Fits(ord, addrSize, b)
    case If(c, yes, no) =>
      Fits(ord, addrSize, c) && Fits(ord, addrSize, yes) && Fits(ord, addrSize, no) &&
      |Code(ord, yes)| < 0x8000 && |Code(ord, no)| + 3 < 0x8000
  }

  // The operators on words do to remainders modulo 2^64 what the operators on integers do.

  lemma UnaryWord(op: UnaryOp, x: int)
    ensures UnaryValue(op, Wrap64(x)) == MapWrap(UnaryMeaning(op, x))
  {
    match op
    case Abs =>
      if SignedWord(x) >= 0 {
        SmallMod(SignedWord(x), B64);
      }
    case Neg =>
    case Not =>
      ModAdd(-1, x, B64);
      SmallMod(B64 - 1 - Wrap64(x), B64);
      ModShift(-1 - Wrap64(x), 1, B64);
  }

  function MapWrap(o: Outcome<int>): Outcome<u64> {
    match o case Throw(e) => Throw(e) case Value(v) => Value(Wrap64(v))
  }

  lemma SumWords(x: int, y: int)
    ensures Wrap64(Wrap64(x) + Wrap64(y)) == Wrap64(x + y)
    ensures Wrap64(Wrap64(x) - Wrap64(y)) == Wrap64(x - y)
  {
    ModAdd(Wrap64(x), y, B64);
    ModAdd(y, x, B64);
    ModAdd(x, y, B64);
    ModAdd(x, -y, B64);
    ModAdd(x, 0 - Wrap64(y), B64);
  }

  lemma ShlWord(x: int, n: u64)
    ensures (if n < 64 then Shl64(Wrap64(x), n) else 0) == Wrap64(x * Pow2(n))
  {
    hide Pow2;
    if n < 64 {
      ModMulLeft(x, Pow2(n), B64);
    } else {
      ShlPast(Wrap64(x), n);
      ModMulLeft(x, Pow2(n), B64);
    }
  }

  /** A word shifted right by 64 or more is 0. */
  lemma ShrWord(x: u64, n: u64)
    ensures Shr64(x, n) == x / Pow2(n)
  {
    hide Pow2;
    if n >= 64 {
      Pow2Of64();
      Pow2Mono(64, n);
      DivModUnique(x, Pow2(n), 0, x);
    }
  }

  lemma ShraWord(x: u64, n: u64)
    requires Signed64(x) != -B63
    ensures Shra64(x, n) == Value(Wrap64(TruncDiv(Signed64(x), Pow2(n))))
  {
    hide Pow2, Shr64;
    if Signed64(x) < 0 {
      SmallMod(-Signed64(x), B64);
      ShrWord(-Signed64(x), n);
    } else {
      ShrWord(x, n);
      QuotientBound(x, Pow2(n));
      SmallMod(x / Pow2(n), B64);
    }
  }

  lemma ShraLowest(x: u64, n: u64)
    requires Signed64(x) == -B63
    ensures Shra64(x, n) == Throw(Undefined)
  {
  }

  lemma BinaryWord(op: BinaryOp, x: int, y: int)
    ensures BinaryValue(op, Wrap64(x), Wrap64(y)) == MapWrap(BinaryMeaning(op, x, y))
  {
    hide Bits, Shl64, Shra64, Shr64, TruncDiv, Pow2;
    match op
    case PlusOp | MinusOp => SumWords(x, y);
    case MulOp => ModMul(x, y, B64);
    case ShlOp => ShlWord(x, Wrap64(y));
    case AndOp => BitsSmall(And, x, y);
    case OrOp => BitsSmall(Or, x, y);
    case XorOp => BitsSmall(Xor, x, y);
    case ShrOp =>
      ShrWord(Wrap64(x), Wrap64(y));
      QuotientBound(Wrap64(x), Pow2(Wrap64(y)));
      SmallMod(Wrap64(x) / Pow2(Wrap64(y)), B64);
    case ShraOp =>
      if SignedWord(x) != -B63 {
        ShraWord(Wrap64(x), Wrap64(y));
      } else {
        ShraLowest(Wrap64(x), Wrap64(y));
      }
    case ModOp =>
      if Wrap64(y) != 0 {
        SmallMod(Wrap64(x) % Wrap64(y), B64);
      }
    case DivOp =>
  }

  lemma BitsSmall(op: BitOp, x: int, y: int)
    ensures Bitwise(op, Wrap64(x), Wrap64(y)) == Wrap64(Bits(op, Wrap64(x), Wrap64(y)))
  {
    hide Bits;
    SmallMod(Bitwise(op, Wrap64(x), Wrap64(y)), B64);
  }

  // Running them.

  ghost predicate Reaches(s: Section, ctx: Context, st: State, n: nat, r: Outcome<State>) {
    After(s, ctx, st, n) == r
  }

  lemma ReachesThen(s: Section, ctx: Context, st: State, n: nat, st': State, m: nat, r: Outcome<State>)
    requires Reaches(s, ctx, st, n, Value(st')) && Reaches(s, ctx, st', m, r)
    ensures Reaches(s, ctx, st, n + m, r)
  {
    hide Step;
    AfterThen(s, ctx, st, n, m);
  }

  lemma ReachesOne(s: Section, ctx: Context, st: State, i: Instr, next: nat)
    requires Decode(s, st.pos) == Value((i, next))
    ensures Reaches(s, ctx, st, 1, Exec(ctx, i, st, next))
  {
    hide Decode, Exec;
    OneStep(s, ctx, st, i, next);
  }

  /** The state when a value has been pushed, or what was thrown instead. */
  function Pushed(st: State, v: Outcome<int>, cap: nat, next: nat): Outcome<State> {
    match v
    case Throw(e) => Throw(e)
    case Value(x) => Value(Push(st, x, cap, next))
  }

  function Push(st: State, x: int, cap: nat, next: nat): State {
    State(st.stack + [Wrap64(x)], cap, st.loc, next)
  }

  /** The capacity after an operation that leaves one entry on top of the stack of `st`. */
  function RoomForOne(st: State, cap: nat): nat {
    Room(cap, |st.stack| + 1)
  }

  lemma ConstExec(ctx: Context, st: State, x: int, next: nat)
    ensures Exec(ctx, Const(Wrap64(x)), st, next) == Pushed(st, Value(x), RoomForOne(st, st.cap), next)
  {
  }

  lemma RegExec(ctx: Context, st: State, r: u32, offset: int, next: nat)
    ensures Exec(ctx, RegOffset(r, offset), st, next) ==
            Pushed(st, Meaning(ctx, Reg(r, offset)), RoomForOne(st, st.cap), next)
  {
    hide Wrap64;
  }

  lemma UnaryExec(ctx: Context, st: State, op: UnaryOp, x: int, cap: nat, p: nat, next: nat)
    ensures Exec(ctx, Unary(op), Push(st, x, cap, p), next) ==
            Pushed(st, UnaryMeaning(op, x), RoomForOne(st, cap), next)
  {
    hide UnaryValue, UnaryMeaning, Wrap64, Room;
    UnaryWord(op, x);
    assert (st.stack + [Wrap64(x)])[..|st.stack|] == st.stack;
  }

  lemma AddExec(ctx: Context, st: State, u: u64, x: int, cap: nat, p: nat, next: nat)
    ensures Exec(ctx, PlusConst(u), Push(st, x, cap, p), next) ==
            Pushed(st, Value(x + u), RoomForOne(st, cap), next)
  {
    hide Wrap64, Room;
    WrapAdds(x, u);
    assert (st.stack + [Wrap64(x)])[..|st.stack|] == st.stack;
  }

  lemma WrapAdds(x: int, u: int)
    ensures Wrap64(Wrap64(x) + u) == Wrap64(x + u)
  {
    ModAdd(x, u, B64);
  }

  lemma TwoOnTop(st: seq<u64>, a: u64, b: u64)
    ensures var two := st + [a] + [b];
            |two| == |st| + 2 && two[..|two| - 2] == st && two[|two| - 2] == a && two[|two| - 1] == b
  {
  }

  /** The state with two values on top of the stack of another. */
  ghost predicate OnTop(st: State, x: int, y: int, mid: State) {
    mid.stack == st.stack + [Wrap64(x)] + [Wrap64(y)] && mid.loc == st.loc
  }

  lemma BinaryExec(ctx: Context, st: State, op: BinaryOp, x: int, y: int, mid: State, next: nat)
    requires OnTop(st, x, y, mid)
    ensures Exec(ctx, Binary(op), mid, next) == Pushed(st, BinaryMeaning(op, x, y), RoomForOne(st, mid.cap), next)
  {
    hide BinaryValue, BinaryMeaning, Wrap64, Room;
    BinaryWord(op, x, y);
    TwoOnTop(st.stack, Wrap64(x), Wrap64(y));
  }

  lemma RelationExec(ctx: Context, st: State, rel: Relation, x: int, y: int, mid: State, next: nat)
    requires OnTop(st, x, y, mid)
    ensures Exec(ctx, Compare(rel), mid, next) ==
            Pushed(st, Value(if SignedWord(x) <= SignedWord(y) then 1 else 0), RoomForOne(st, mid.cap), next)
  {
    hide Room;
    TwoOnTop(st.stack, Wrap64(x), Wrap64(y));
  }

  lemma BraExec(ctx: Context, st: State, x: int, cap: nat, p: nat, n: nat, next: nat)
    ensures Exec(ctx, Bra(n), Push(st, x, cap, p), next) ==
            Value(st.(cap := Room(cap, |st.stack|), pos := if Wrap64(x) != 0 then next + n else next))
  {
    hide Wrap64, Room;
    assert (st.stack + [Wrap64(x)])[..|st.stack|] == st.stack;
  }

  lemma SkipExec(ctx: Context, st: State, n: nat, next: nat)
    ensures Exec(ctx, Skip(n), st, next) == Value(st.(cap := Room(st.cap, |st.stack|), pos := next + n))
  {
    hide Room;
  }

  lemma ThenOp(s: Section, ctx: Context, st: State, n: nat, st': State, i: Instr, next: nat)
    requires Reaches(s, ctx, st, n, Value(st')) && Decode(s, st'.pos) == Value((i, next))
    ensures Reaches(s, ctx, st, n + 1, Exec(ctx, i, st', next))
  {
    hide *;
    ReachesOne(s, ctx, st', i, next);
    ReachesThen(s, ctx, st, n, st', 1, Exec(ctx, i, st', next));
  }

  /** What two operands come to: the first throw, or the state after both. */
  function Both(x: Outcome<int>, y: Outcome<int>, mid: State): Outcome<State> {
    if x.Throw? then Throw(x.error) else if y.Throw? then Throw(y.error) else Value(mid)
  }

  /** Both operands of a binary operation, in order; the first one's throw comes first. */
  lemma {:induction false} OperandsCompile(s: Section, ctx: Context, e: Tree, st: State) returns (n: nat, mid: State)
    requires e.Bin? || e.Rel? || e.Space?
    requires At(s.data, st.pos, Code(s.ord, e.left) + Code(s.ord, e.right))
    requires Fits(s.ord, s.addrSize, e.left) && Fits(s.ord, s.addrSize, e.right)
    ensures n <= |Code(s.ord, e.left)| + |Code(s.ord, e.right)|
    ensures var x, y := Meaning(ctx, e.left), Meaning(ctx, e.right);
            && Reaches(s, ctx, st, n, Both(x, y, mid))
            && (x.Value? && y.Value? ==>
                  OnTop(st, x.value, y.value, mid) &&
                  mid.pos == st.pos + |Code(s.ord, e.left)| + |Code(s.ord, e.right)|)
    decreases e, 0
  {
    hide At, Reaches, Code, Fits, Meaning;
    AtAppend(s.data, st.pos, Code(s.ord, e.left), Code(s.ord, e.right));
    var cap;
    n, cap := Compiles(s, ctx, e.left, st);
    mid := st;
    var x, y := Meaning(ctx, e.left), Meaning(ctx, e.right);
    if x.Value? {
      var st' := Push(st, x.value, cap, st.pos + |Code(s.ord, e.left)|);
      var m, cap' := Compiles(s, ctx, e.right, st');
      var next := st'.pos + |Code(s.ord, e.right)|;
      ReachesThen(s, ctx, st, n, st', m, Pushed(st', y, cap', next));
      n := n + m;
      if y.Value? {
        mid := Push(st', y.value, cap', next);
      }
    }
  }

  lemma {:induction false} UnaryCompiles(s: Section, ctx: Context, e: Tree, st: State) returns (n: nat, cap: nat)
    requires e.Un? && At(s.data, st.pos, Code(s.ord, e)) && Fits(s.ord, s.addrSize, e)
    ensures n <= |Code(s.ord, e)|
    ensures Reaches(s, ctx, st, n, Pushed(st, Meaning(ctx, e), cap, st.pos + |Code(s.ord, e)|))
    decreases e, 0
  {
    hide At, Reaches, Decode, Exec;
    AtAppend(s.data, st.pos, Code(s.ord, e.arg), [UnaryCode(e.unary)]);
    n, cap := Compiles(s, ctx, e.arg, st);
    var x := Meaning(ctx, e.arg);
    if x.Value? {
      var p := st.pos + |Code(s.ord, e.arg)|;
      CodesArePlain(s.addrSize, e.unary, AndOp, Eq);
      PlainDecodes(s, p, UnaryCode(e.unary), Unary(e.unary));
      ThenOp(s, ctx, st, n, Push(st, x.value, cap, p), Unary(e.unary), p + 1);
      UnaryExec(ctx, st, e.unary, x.value, cap, p, p + 1);
      n, cap := n + 1, RoomForOne(st, cap);
    }
  }

  lemma {:induction false} AddCompiles(s: Section, ctx: Context, e: Tree, st: State) returns (n: nat, cap: nat)
    requires e.Add? && At(s.data, st.pos, Code(s.ord, e)) && Fits(s.ord, s.addrSize, e)
    ensures n <= |Code(s.ord, e)|
    ensures Reaches(s, ctx, st, n, Pushed(st, Meaning(ctx, e), cap, st.pos + |Code(s.ord, e)|))
    decreases e, 0
  {
    hide At, Reaches, Decode, Exec;
    var add := [0x23] + Leb128.EncodeUnsigned(e.addend, 0);
    AtAppend(s.data, st.pos, Code(s.ord, e.arg), add);
    n, cap := Compiles(s, ctx, e.arg, st);
    var x := Meaning(ctx, e.arg);
    if x.Value? {
      var p := st.pos + |Code(s.ord, e.arg)|;
      AddDecodes(s, p, e.addend);
      ThenOp(s, ctx, st, n, Push(st, x.value, cap, p), PlusConst(e.addend), p + |add|);
      AddExec(ctx, st, e.addend, x.value, cap, p, p + |add|);
      n, cap := n + 1, RoomForOne(st, cap);
    }
  }

  /** What a callback makes of the values on top. */
  lemma DerefExec(ctx: Context, st: State, size: nat, x: int, cap: nat, p: nat, next: nat)
    ensures Exec(ctx, Load(size), Push(st, x, cap, p), next) ==
            Pushed(st, Called(ctx.deref(Wrap64(x), size)), RoomForOne(st, cap), next)
  {
    hide Room;
    assert (st.stack + [Wrap64(x)])[..|st.stack|] == st.stack;
    PushedWord(st, ctx.deref(Wrap64(x), size), RoomForOne(st, cap), next);
  }

  lemma LocalExec(ctx: Context, st: State, x: int, cap: nat, p: nat, next: nat)
    ensures Exec(ctx, Tls, Push(st, x, cap, p), next) ==
            Pushed(st, Called(ctx.tls(Wrap64(x))), RoomForOne(st, cap), next)
  {
    hide Room;
    assert (st.stack + [Wrap64(x)])[..|st.stack|] == st.stack;
    PushedWord(st, ctx.tls(Wrap64(x)), RoomForOne(st, cap), next);
  }

  lemma SpaceExec(ctx: Context, st: State, size: nat, x: int, y: int, mid: State, next: nat)
    requires OnTop(st, x, y, mid)
    ensures Exec(ctx, LoadSpace(size), mid, next) ==
            Pushed(st, Called(ctx.xderef(Wrap64(y), Wrap64(x), size)), RoomForOne(st, mid.cap), next)
  {
    hide Room;
    TwoOnTop(st.stack, Wrap64(x), Wrap64(y));
    PushedWord(st, ctx.xderef(Wrap64(y), Wrap64(x), size), RoomForOne(st, mid.cap), next);
  }

  /** A word is its own remainder. */
  lemma PushedWord(st: State, v: Option<u64>, cap: nat, next: nat)
    ensures v.Some? ==>
      Pushed(st, Value(v.value), cap, next) == Value(State(st.stack + [v.value], cap, st.loc, next))
  {
    if v.Some? {
      SmallMod(v.value, B64);
    }
  }

  /** A size below the address size after its opcode. */
  lemma LoadDecodes(s: Section, pos: nat, op: byte, size: byte)
    requires op in {0x94, 0x95} && size <= s.addrSize && At(s.data, pos, [op] + [size])
    ensures Decode(s, pos) == Value((if op == 0x94 then Load(size) else LoadSpace(size), pos + 2))
  {
    hide Decode, ReadFixed, At;
    SmallMod(size, B64);
    SmallMod(size, 256);
    ByteOperand(s, pos, op, size);
  }

  lemma {:induction false} LoadCompiles(s: Section, ctx: Context, e: Tree, st: State) returns (n: nat, cap: nat)
    requires (e.Deref? || e.Local?) && At(s.data, st.pos, Code(s.ord, e)) && Fits(s.ord, s.addrSize, e)
    ensures n <= |Code(s.ord, e)|
    ensures Reaches(s, ctx, st, n, Pushed(st, Meaning(ctx, e), cap, st.pos + |Code(s.ord, e)|))
    decreases e, 0
  {
    hide At, Reaches, Decode, Exec;
    var load: seq<byte> := if e.Deref? then [0x94] + [e.width] else [0x9b];
    AtAppend(s.data, st.pos, Code(s.ord, e.arg), load);
    n, cap := Compiles(s, ctx, e.arg, st);
    var x := Meaning(ctx, e.arg);
    if x.Value? {
      var p := st.pos + |Code(s.ord, e.arg)|;
      if e.Deref? {
        LoadDecodes(s, p, 0x94, e.width);
        DerefExec(ctx, st, e.width, x.value, cap, p, p + 2);
        ThenOp(s, ctx, st, n, Push(st, x.value, cap, p), Load(e.width), p + 2);
      } else {
        PlainDecodes(s, p, 0x9b, Tls);
        LocalExec(ctx, st, x.value, cap, p, p + 1);
        ThenOp(s, ctx, st, n, Push(st, x.value, cap, p), Tls, p + 1);
      }
      n, cap := n + 1, RoomForOne(st, cap);
    }
  }

  lemma {:induction false} SpaceCompiles(s: Section, ctx: Context, e: Tree, st: State) returns (n: nat, cap: nat)
    requires e.Space? && At(s.data, st.pos, Code(s.ord, e)) && Fits(s.ord, s.addrSize, e)
    ensures n <= |Code(s.ord, e)|
    ensures Reaches(s, ctx, st, n, Pushed(st, Meaning(ctx, e), cap, st.pos + |Code(s.ord, e)|))
    decreases e, 1
  {
    hide At, Reaches, Decode, Exec, Wrap64;
    AtAppend(s.data, st.pos, Code(s.ord, e.left) + Code(s.ord, e.right), [0x95] + [e.width]);
    var mid;
    n, mid := OperandsCompile(s, ctx, e, st);
    cap := RoomForOne(st, mid.cap);
    var x, y := Meaning(ctx, e.left), Meaning(ctx, e.right);
    if x.Value? && y.Value? {
      LoadDecodes(s, mid.pos, 0x95, e.width);
      SpaceExec(ctx, st, e.width, x.value, y.value, mid, mid.pos + 2);
      ThenOp(s, ctx, st, n, mid, LoadSpace(e.width), mid.pos + 2);
      n := n + 1;
    }
  }

  /** The operation after its two operands. */
  lemma ThenCombine(s: Section, ctx: Context, st: State, n: nat, mid: State, op: byte, i: Instr)
    requires Reaches(s, ctx, st, n, Value(mid))
    requires At(s.data, mid.pos, [op]) && Plain(s.addrSize, op) == Some(i)
    ensures Reaches(s, ctx, st, n + 1, Exec(ctx, i, mid, mid.pos + 1))
  {
    hide *;
    PlainDecodes(s, mid.pos, op, i);
    ThenOp(s, ctx, st, n, mid, i, mid.pos + 1);
  }

  lemma {:induction false} BinCompiles(s: Section, ctx: Context, e: Tree, st: State) returns (n: nat, cap: nat)
    requires e.Bin? && At(s.data, st.pos, Code(s.ord, e)) && Fits(s.ord, s.addrSize, e)
    ensures n <= |Code(s.ord, e)|
    ensures Reaches(s, ctx, st, n, Pushed(st, Meaning(ctx, e), cap, st.pos + |Code(s.ord, e)|))
    decreases e, 1
  {
    hide At, Reaches, Exec, BinaryMeaning, Plain, Wrap64;
    AtAppend(s.data, st.pos, Code(s.ord, e.left) + Code(s.ord, e.right), [BinaryCode(e.binary)]);
    var mid;
    n, mid := OperandsCompile(s, ctx, e, st);
    cap := RoomForOne(st, mid.cap);
    var x, y := Meaning(ctx, e.left), Meaning(ctx, e.right);
    if x.Value? && y.Value? {
      CodesArePlain(s.addrSize, Abs, e.binary, Eq);
      ThenCombine(s, ctx, st, n, mid, BinaryCode(e.binary), Binary(e.binary));
      BinaryExec(ctx, st, e.binary, x.value, y.value, mid, mid.pos + 1);
      n := n + 1;
    }
  }

  lemma {:induction false} RelCompiles(s: Section, ctx: Context, e: Tree, st: State) returns (n: nat, cap: nat)
    requires e.Rel? && At(s.data, st.pos, Code(s.ord, e)) && Fits(s.ord, s.addrSize, e)
    ensures n <= |Code(s.ord, e)|
    ensures Reaches(s, ctx, st, n, Pushed(st, Meaning(ctx, e), cap, st.pos + |Code(s.ord, e)|))
    decreases e, 1
  {
    hide At, Reaches, Exec, SignedWord, Plain, Wrap64;
    AtAppend(s.data, st.pos, Code(s.ord, e.left) + Code(s.ord, e.right), [RelationCode(e.relation)]);
    var mid;
    n, mid := OperandsCompile(s, ctx, e, st);
    cap := RoomForOne(st, mid.cap);
    var x, y := Meaning(ctx, e.left), Meaning(ctx, e.right);
    if x.Value? && y.Value? {
      CodesArePlain(s.addrSize, Abs, AndOp, e.relation);
      ThenCombine(s, ctx, st, n, mid, RelationCode(e.relation), Compare(e.relation));
      RelationExec(ctx, st, e.relation, x.value, y.value, mid, mid.pos + 1);
      n := n + 1;
    }
  }

  /** The condition and the branch on it. */
  lemma {:induction false} CondCompiles(s: Section, ctx: Context, e: Tree, st: State) returns (n: nat, cap: nat)
    requires e.If? && Fits(s.ord, s.addrSize, e) && At(s.data, st.pos, Code(s.ord, e.cond))
    requires At(s.data, st.pos + |Code(s.ord, e.cond)|, Jump(s.ord, 0x28, |Code(s.ord, e.no)| + 3))
    ensures n <= |Code(s.ord, e.cond)| + 1
    ensures var x, p := Meaning(ctx, e.cond), st.pos + |Code(s.ord, e.cond)| + 3;
            Reaches(s, ctx, st, n,
                    if x.Throw? then Throw(x.error)
                    else Value(st.(cap := cap, pos := if Wrap64(x.value) != 0 then p + |Code(s.ord, e.no)| + 3 else p)))
    decreases e, 0
  {
    hide At, Reaches, Decode, Exec, Jump, Code, Meaning;
    n, cap := Compiles(s, ctx, e.cond, st);
    var x := Meaning(ctx, e.cond);
    if x.Value? {
      var p, over := st.pos + |Code(s.ord, e.cond)|, |Code(s.ord, e.no)| + 3;
      JumpDecodes(s, p, 0x28, over);
      ThenOp(s, ctx, st, n, Push(st, x.value, cap, p), Bra(over), p + 3);
      BraExec(ctx, st, x.value, cap, p, over, p + 3);
      n, cap := n + 1, Room(cap, |st.stack|);
    }
  }

  lemma {:induction false} IfCompiles(s: Section, ctx: Context, e: Tree, st: State) returns (n: nat, cap: nat)
    requires e.If? && At(s.data, st.pos, Code(s.ord, e)) && Fits(s.ord, s.addrSize, e)
    ensures n <= |Code(s.ord, e)|
    ensures Reaches(s, ctx, st, n, Pushed(st, Meaning(ctx, e), cap, st.pos + |Code(s.ord, e)|))
    decreases e, 1
  {
    hide At, Reaches, Jump, Wrap64, Code, Fits, Meaning;
    var c, yes, no := Code(s.ord, e.cond), Code(s.ord, e.yes), Code(s.ord, e.no);
    var skip := Jump(s.ord, 0x2f, |yes|);
    var bra := Jump(s.ord, 0x28, |no| + 3);
    JumpLength(s.ord, 0x2f, |yes|);
    JumpLength(s.ord, 0x28, |no| + 3);
    IfIs(s.ord, s.addrSize, ctx, e);
    AtAppendFour(s.data, st.pos, c, bra, no + skip, yes);
    n, cap := CondCompiles(s, ctx, e, st);
    var x := Meaning(ctx, e.cond);
    if x.Value? {
      var p := st.pos + |c| + 3;
      if Wrap64(x.value) != 0 {
        var st' := st.(cap := cap, pos := p + |no| + 3);
        var m, cap' := Compiles(s, ctx, e.yes, st');
        ReachesThen(s, ctx, st, n, st', m, Pushed(st', Meaning(ctx, e.yes), cap', st'.pos + |yes|));
        n, cap := n + m, cap';
      } else {
        AtAppend(s.data, p, no, skip);
        var st' := st.(cap := cap, pos := p);
        var m, cap' := NoBranch(s, ctx, e, st');
        ReachesThen(s, ctx, st, n, st', m, Pushed(st', Meaning(ctx, e.no), cap', p + |no| + 3 + |yes|));
        n, cap := n + m, cap';
      }
    }
  }

  lemma IfIs(ord: Order, addrSize: nat, ctx: Context, e: Tree)
    requires e.If?
    ensures Code(ord, e) ==
            Code(ord, e.cond) + Jump(ord, 0x28, |Code(ord, e.no)| + 3)
            + (Code(ord, e.no) + Jump(ord, 0x2f, |Code(ord, e.yes)|)) + Code(ord, e.yes)
    ensures Fits(ord, addrSize, e) ==> Fits(ord, addrSize, e.yes) && Fits(ord, addrSize, e.no)
    ensures var x := Meaning(ctx, e.cond);
            Meaning(ctx, e) ==
            if x.Throw? then x else if Wrap64(x.value) != 0 then Meaning(ctx, e.yes) else Meaning(ctx, e.no)
  {
    hide Jump, Wrap64;
    JumpLength(ord, 0x2f, |Code(ord, e.yes)|);
  }

  lemma JumpLength(ord: Order, op: byte, n: nat)
    ensures |Jump(ord, op, n)| == 3
  {
    EncodeFixedLength(ord, 2, n);
  }

  /** The branch not taken, then the jump over the other one. */
  lemma {:induction false} NoBranch(s: Section, ctx: Context, e: Tree, st: State) returns (m: nat, cap: nat)
    requires e.If? && Fits(s.ord, s.addrSize, e) && At(s.data, st.pos, Code(s.ord, e.no))
    requires At(s.data, st.pos + |Code(s.ord, e.no)|, Jump(s.ord, 0x2f, |Code(s.ord, e.yes)|))
    ensures m <= |Code(s.ord, e.no)| + 1
    ensures Reaches(s, ctx, st, m,
                    Pushed(st, Meaning(ctx, e.no), cap, st.pos + |Code(s.ord, e.no)| + 3 + |Code(s.ord, e.yes)|))
    decreases e, 0
  {
    hide At, Reaches, Decode, Exec, Code, Jump, Meaning;
    m, cap := Compiles(s, ctx, e.no, st);
    var y := Meaning(ctx, e.no);
    if y.Value? {
      var q, over := st.pos + |Code(s.ord, e.no)|, |Code(s.ord, e.yes)|;
      JumpDecodes(s, q, 0x2f, over);
      ThenOp(s, ctx, st, m, Push(st, y.value, cap, q), Skip(over), q + 3);
      SkipExec(ctx, Push(st, y.value, cap, q), over, q + 3);
      m, cap := m + 1, RoomForOne(st, cap);
    }
  }

  lemma LeafCompiles(s: Section, ctx: Context, e: Tree, st: State)
    requires (e.Num? || e.Sized? || e.Reg?) && At(s.data, st.pos, Code(s.ord, e)) && Fits(s.ord, s.addrSize, e)
    ensures 1 <= |Code(s.ord, e)|
    ensures Reaches(s, ctx, st, 1, Pushed(st, Meaning(ctx, e), RoomForOne(st, st.cap), st.pos + |Code(s.ord, e)|))
  {
    hide Reaches, Decode, Exec, At, SizedFits;
    if e.Sized? {
      var next := st.pos + |SizedCode(s.ord, e.size, e.signed, e.n)|;
      SizedDecodes(s, st.pos, e.size, e.signed, e.n);
      ConstExec(ctx, st, e.n, next);
      ReachesOne(s, ctx, st, Const(Wrap64(e.n)), next);
    } else if e.Num? {
      NumDecodes(s, st.pos, e.n);
      ConstExec(ctx, st, e.n, st.pos + |NumCode(e.n)|);
      ReachesOne(s, ctx, st, Const(Wrap64(e.n)), st.pos + |NumCode(e.n)|);
    } else {
      RegDecodes(s, st.pos, e.reg, e.offset);
      RegExec(ctx, st, e.reg, e.offset, st.pos + |RegCode(e.reg, e.offset)|);
      ReachesOne(s, ctx, st, RegOffset(e.reg, e.offset), st.pos + |RegCode(e.reg, e.offset)|);
    }
  }

  /** The code of a tree, wherever it lies, leaves the tree's value modulo 2^64 on an otherwise
      unchanged stack, or throws what the tree's meaning says, in at most as many operations
      as it has bytes. */
  lemma {:induction false} Compiles(s: Section, ctx: Context, e: Tree, st: State) returns (n: nat, cap: nat)
    requires At(s.data, st.pos, Code(s.ord, e)) && Fits(s.ord, s.addrSize, e)
    ensures n <= |Code(s.ord, e)|
    ensures Reaches(s, ctx, st, n, Pushed(st, Meaning(ctx, e), cap, st.pos + |Code(s.ord, e)|))
    decreases e, 2
  {
    hide Reaches, Code, Fits, Meaning, At, Pushed;
    match e
    case Num(_) | Sized(_, _, _) | Reg(_, _) =>
      LeafCompiles(s, ctx, e, st);
      n, cap := 1, RoomForOne(st, st.cap);
    case Un(_, _) => n, cap := UnaryCompiles(s, ctx, e, st);
    case Add(_, _) => n, cap := AddCompiles(s, ctx, e, st);
    case Deref(_, _) | Local(_) => n, cap := LoadCompiles(s, ctx, e, st);
    case Space(_, _, _) => n, cap := SpaceCompiles(s, ctx, e, st);
    case Bin(_, _, _) => n, cap := BinCompiles(s, ctx, e, st);
    case Rel(_, _, _) => n, cap := RelCompiles(s, ctx, e, st);
    case If(_, _, _) => n, cap := IfCompiles(s, ctx, e, st);
  }

  /** Evaluating a compiled tree, with any arguments and as much fuel as it has bytes, gives
      the tree's value modulo 2^64. */
  lemma EvaluatesToMeaning(
    cu: Section, offset: nat, ctx: Context, e: Tree, args: seq<u64>, fuel: nat)
    requires At(cu.data, offset, Code(cu.ord, e)) && Fits(cu.ord, cu.addrSize, e) && fuel >= |Code(cu.ord, e)|
    ensures Evaluate(cu, offset, |Code(cu.ord, e)|, ctx, args, fuel) ==
            match Meaning(ctx, e)
            case Throw(error) => Throw(error)
            case Value(v) => Value(Address(Wrap64(v)))
  {
    hide Meaning, Code, Fits, Step;
    var s := cu.(data := Code(cu.ord, e));
    var st := Start(args);
    assert At(s.data, 0, s.data);
    assert cu.data[offset..offset + |s.data|] == s.data;
    var n, _ := Compiles(s, ctx, e, st);
    CodeNotEmpty(cu.ord, e);
    RunIsAfter(s, ctx, st, n, fuel - n);
  }

  lemma CodeNotEmpty(ord: Order, e: Tree)
    ensures Code(ord, e) != []
  {
  }
}
