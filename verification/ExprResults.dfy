/** What whole evaluations return, byte by byte: locations made directly, the top of the stack,
    and the arguments as the stack operations rearrange them. */
module ExprResults {
  import opened Outcomes
  import opened Words
  import opened Sections
  import opened SmallVectors
  import opened Exprs
  import opened ExprRuns
  import opened ExprEncode
  import opened ExprCompile
  import opened ExprExact
  import Leb128

  /** Evaluating bytes of a unit is running them as a section of their own. */
  lemma OwnSection(cu: Section, offset: nat, code: seq<byte>, ctx: Context, args: seq<u64>, fuel: nat)
    requires At(cu.data, offset, code) && code != []
    ensures At(code, 0, code)
    ensures Evaluate(cu, offset, |code|, ctx, args, fuel) == Run(cu.(data := code), ctx, Start(args), fuel)
  {
    hide Run, Start;
    assert cu.data[offset..offset + |code|] == code;
  }

  /** No bytes: an empty location. */
  lemma EmptyResult(cu: Section, offset: nat, ctx: Context, args: seq<u64>, fuel: nat)
    requires offset <= |cu.data|
    ensures Evaluate(cu, offset, 0, ctx, args, fuel) == Value(Empty)
  {
    hide Run;
    assert cu.data[offset..offset] == [];
  }

  /** DW_OP_reg0 to reg31 and regx: the value is in that register. */
  lemma RegisterResult(cu: Section, offset: nat, r: u64, ctx: Context, args: seq<u64>, fuel: nat)
    requires fuel > 0
    requires At(cu.data, offset, if r < 32 then [0x50 + r] else [0x90] + Leb128.EncodeUnsigned(r, 0))
    ensures var len := if r < 32 then 1 else 1 + |Leb128.EncodeUnsigned(r, 0)|;
            Evaluate(cu, offset, len, ctx, args, fuel) == Value(Located(InRegister(r)))
  {
    hide Decode, At, Evaluate, Start;
    var code := if r < 32 then [0x50 + r] else [0x90] + Leb128.EncodeUnsigned(r, 0);
    var s, st := cu.(data := code), Start(args);
    OwnSection(cu, offset, code, ctx, args, fuel);
    assert EncodeInstr(s, Register(r)) == code;
    assert st.pos == 0 by { StartIs(args); }
    InstrRoundTrip(s, Register(r), 0);
    var made := State(st.stack, Room(st.cap, |st.stack|), Some(InRegister(r)), |code|);
    assert Step(s, ctx, st) == Value(made);
    assert Run(s, ctx, made, fuel - 1) == Value(Located(InRegister(r)));
  }

  lemma StartIs(args: seq<u64>)
    ensures Start(args).pos == 0 && Start(args).loc == None
    ensures Start(args).stack == Initial(args) && Start(args).cap == Room(INLINE, |args|)
  {
  }

  lemma LiteralExec(ctx: Context, st: State, v: int, cap: nat, p: nat, next: nat)
    ensures var top := ExprCompile.Push(st, v, cap, p);
            Exec(ctx, StackValue, top, next) ==
            Value(State(top.stack, Room(cap, |top.stack|), Some(Literal(Wrap64(v))), next))
  {
    hide Room, Wrap64;
  }

  /** A compiled tree and DW_OP_stack_value: the value is the tree's, not at that address. */
  lemma LiteralResult(cu: Section, offset: nat, ctx: Context, e: Tree, args: seq<u64>, fuel: nat)
    requires At(cu.data, offset, Code(cu.ord, e) + [0x9f]) && Fits(cu.ord, cu.addrSize, e)
    requires fuel > |Code(cu.ord, e)|
    ensures Evaluate(cu, offset, |Code(cu.ord, e)| + 1, ctx, args, fuel) ==
            match Meaning(ctx, e)
            case Throw(error) => Throw(error)
            case Value(v) => Value(Located(Literal(Wrap64(v))))
  {
    hide Meaning, Code, Fits, Step, Evaluate, At, Start, Exec;
    var code := Code(cu.ord, e) + [0x9f];
    var s, st, p := cu.(data := code), Start(args), |Code(cu.ord, e)|;
    OwnSection(cu, offset, code, ctx, args, fuel);
    StartIs(args);
    AtAppend(s.data, 0, Code(cu.ord, e), [0x9f]);
    var n, cap := Compiles(s, ctx, e, st);
    if Meaning(ctx, e).Value? {
      var v := Meaning(ctx, e).value;
      var top := ExprCompile.Push(st, v, cap, p);
      PlainDecodes(s, p, 0x9f, StackValue);
      ThenOp(s, ctx, st, n, top, StackValue, p + 1);
      LiteralExec(ctx, st, v, cap, p, p + 1);
      RunIsAfter(s, ctx, st, n + 1, fuel - n - 1);
    } else {
      RunIsAfter(s, ctx, st, n, fuel - n);
    }
  }

  // The arguments, listed from the top of the stack.

  /** Operations that only rearrange the stack, and nop. */
  predicate Rearranges(i: Instr) {
    i.Nop? || i.Drop? || i.Swap? || i.Rot? || i.Dup? || i.Over? || (i.Pick? && i.n < 256)
  }

  function OpBytes(i: Instr): seq<byte>
    requires Rearranges(i)
  {
    if i.Pick? then [0x15] + [i.n]
    else
      match i
      case Dup => [0x12] case Drop => [0x13] case Over => [0x14] case Swap => [0x16] case Rot => [0x17]
      case _ => [0x96]
  }

  /** What section 2.5.1.3 asks for - with the throws and the undefined copies of the code. */
  function Rearranged(i: Instr, args: seq<u64>): Outcome<seq<u64>>
    requires Rearranges(i)
  {
    var n := |args|;
    match i
    case Drop => if n < 1 then Throw(StackUnderflow) else Value(args[1..])
    case Swap => if n < 2 then Throw(StackUnderflow) else Value([args[1], args[0]] + args[2..])
    case Rot => if n < 3 then Throw(StackUnderflow) else Value([args[1], args[2], args[0]] + args[3..])
    case Dup => if n < 1 then Throw(StackUnderflow) else Copied(args, 0)
    case Over => if n < 2 then Throw(StackUnderflow) else Copied(args, 1)
    case Pick(k) => if n < k then Throw(StackUnderflow) else Copied(args, k)
    case _ => Value(args)
  }

  function Copied(args: seq<u64>, k: nat): Outcome<seq<u64>> {
    if k >= |args| || Brim(|args|) then Throw(Undefined) else Value([args[k]] + args)
  }

  /** What is on top when k entries have been dropped. */
  function Reading(args: seq<u64>, k: nat): Outcome<Result> {
    if k < |args| then Value(Address(args[k]))
    else if k == |args| then Throw(Expression)
    else Throw(StackUnderflow)
  }

  function Drops(k: nat): seq<byte> {
    seq(k, _ => 0x13)
  }

  lemma {:induction false} InitialAt(args: seq<u64>)
    ensures |Initial(args)| == |args|
    ensures forall k :: 0 <= k < |args| ==> Initial(args)[|args| - 1 - k] == args[k]
  {
    if args != [] {
      InitialAt(args[1..]);
    }
  }

  lemma InitialCons(x: u64, args: seq<u64>)
    ensures Initial([x] + args) == Initial(args) + [x]
  {
    assert ([x] + args)[1..] == args;
  }

  lemma InitialTwo(a: u64, b: u64, rest: seq<u64>)
    ensures Initial([a, b] + rest) == Initial(rest) + [b, a]
  {
    hide Initial;
    InitialCons(b, rest);
    InitialCons(a, [b] + rest);
    assert [a, b] + rest == [a] + ([b] + rest);
    assert Initial(rest) + [b] + [a] == Initial(rest) + [b, a];
  }

  lemma InitialThree(a: u64, b: u64, c: u64, rest: seq<u64>)
    ensures Initial([a, b, c] + rest) == Initial(rest) + [c, b, a]
  {
    hide Initial;
    InitialCons(c, rest);
    InitialTwo(a, b, [c] + rest);
    assert [a, b, c] + rest == [a, b] + ([c] + rest);
    assert Initial(rest) + [c] + [b, a] == Initial(rest) + [c, b, a];
  }

  lemma SwapStack(ctx: Context, args: seq<u64>)
    requires |args| >= 2
    ensures |Initial(args)| >= 2
    ensures NewStack(ctx, Swap, Initial(args)) == Value(Initial([args[1], args[0]] + args[2..]))
  {
    hide Initial, NewStack;
    var rest := args[2..];
    assert args == [args[0], args[1]] + rest;
    InitialTwo(args[0], args[1], rest);
    InitialTwo(args[1], args[0], rest);
    SwapExchanges(ctx, Initial(rest), args[1], args[0]);
  }

  lemma RotStack(ctx: Context, args: seq<u64>)
    requires |args| >= 3
    ensures |Initial(args)| >= 3
    ensures NewStack(ctx, Rot, Initial(args)) == Value(Initial([args[1], args[2], args[0]] + args[3..]))
  {
    hide Initial, NewStack;
    var rest := args[3..];
    assert args == [args[0], args[1], args[2]] + rest;
    InitialThree(args[0], args[1], args[2], rest);
    InitialThree(args[1], args[2], args[0], rest);
    RotRotates(ctx, Initial(rest), args[2], args[1], args[0]);
  }

  lemma DropStack(ctx: Context, args: seq<u64>)
    requires args != []
    ensures |Initial(args)| >= 1
    ensures NewStack(ctx, Drop, Initial(args)) == Value(Initial(args[1..]))
  {
    hide NewStack;
    DropTop(ctx, Initial(args[1..]), args[0]);
  }

  lemma DropTop(ctx: Context, base: seq<u64>, a: u64)
    ensures NewStack(ctx, Drop, base + [a]) == Value(base)
  {
    assert (base + [a])[..|base|] == base;
  }

  /** The stack of a rearranged list of arguments is the rearranged stack. */
  lemma RearrangedStack(ctx: Context, i: Instr, args: seq<u64>)
    requires Rearranges(i) && !Copies(i) && Rearranged(i, args).Value?
    ensures |Initial(args)| == |args| >= Needs(i)
    ensures NewStack(ctx, i, Initial(args)) == Value(Initial(Rearranged(i, args).value))
  {
    hide Initial;
    InitialAt(args);
    match i
    case Drop => DropStack(ctx, args);
    case Swap => SwapStack(ctx, args);
    case Rot => RotStack(ctx, args);
    case Nop =>
  }

  lemma RearrangedExec(ctx: Context, i: Instr, args: seq<u64>, next: nat)
    requires Rearranges(i)
    ensures var r, now := Exec(ctx, i, Start(args), next), Rearranged(i, args);
            if now.Throw? then r == Throw(now.error)
            else r.Value? && r.value.stack == Initial(now.value) && r.value.loc == None && r.value.pos == next
  {
    hide Exec, Start, Rearranged;
    if Copies(i) {
      CopiedExec(ctx, i, args, next);
    } else {
      MovedExec(ctx, i, args, next);
    }
  }

  lemma CopiedExec(ctx: Context, i: Instr, args: seq<u64>, next: nat)
    requires Rearranges(i) && Copies(i)
    ensures var r, now := Exec(ctx, i, Start(args), next), Rearranged(i, args);
            if now.Throw? then r == Throw(now.error)
            else r.Value? && r.value.stack == Initial(now.value) && r.value.loc == None && r.value.pos == next
  {
    hide Exec, Room, Start, Initial;
    StartIs(args);
    InitialAt(args);
    RoomTwice(INLINE, |args|, 0);
    CopyExact(ctx, i, Start(args), next);
    CopyStays(ctx, i, Start(args), next);
    if Below(i) < |args| {
      InitialCons(args[Below(i)], args);
    }
  }

  lemma MovedExec(ctx: Context, i: Instr, args: seq<u64>, next: nat)
    requires Rearranges(i) && !Copies(i)
    ensures var r, now := Exec(ctx, i, Start(args), next), Rearranged(i, args);
            if now.Throw? then r == Throw(now.error)
            else r.Value? && r.value.stack == Initial(now.value) && r.value.loc == None && r.value.pos == next
  {
    hide NewStack, Room, Initial;
    InitialAt(args);
    if Rearranged(i, args).Value? {
      RearrangedStack(ctx, i, args);
    }
  }

  lemma CopyStays(ctx: Context, i: Instr, st: State, next: nat)
    requires Copies(i)
    ensures var r := Exec(ctx, i, st, next);
            && (r.Value? ==> r.value.loc == st.loc && r.value.pos == next)
            && (r.Throw? ==> r.error == StackUnderflow || r.error == Undefined)
  {
    hide Room;
  }

  /** Drops to the end. */
  lemma {:induction false} DropsRead(s: Section, ctx: Context, st: State, args: seq<u64>, k: nat, fuel: nat)
    requires st.stack == Initial(args) && st.loc == None && fuel >= k
    requires st.pos + k == |s.data| && forall j :: st.pos <= j < |s.data| ==> s.data[j] == 0x13
    ensures Run(s, ctx, st, fuel) == Reading(args, k)
    decreases k
  {
    hide Decode, Room;
    InitialAt(args);
    if k > 0 {
      assert s.data[st.pos..st.pos + 1] == [0x13];
      PlainDecodes(s, st.pos, 0x13, Drop);
      if args != [] {
        var st' := Step(s, ctx, st).value;
        assert Initial(args)[..|args| - 1] == Initial(args[1..]);
        DropsRead(s, ctx, st', args[1..], k - 1, fuel - 1);
      }
    }
  }

  lemma OpDecodes(s: Section, i: Instr, k: nat)
    requires Rearranges(i) && s.data == OpBytes(i) + Drops(k)
    ensures Decode(s, 0) == Value((i, |OpBytes(i)|))
  {
    hide Decode;
    assert s.data[0..|OpBytes(i)|] == OpBytes(i);
    if i.Pick? {
      SmallMod(i.n, B64);
      SmallMod(i.n, 256);
      PickDecodes(s, 0, i.n);
    } else {
      PlainDecodes(s, 0, OpBytes(i)[0], i);
    }
  }

  /** One operation on the arguments and then drops: so every place of the stack is as it
      should be, argument 0 on top before the operation.  Without any operation but nop, k drops
      leave argument k. */
  lemma StackResult(cu: Section, offset: nat, ctx: Context, i: Instr, args: seq<u64>, k: nat, fuel: nat)
    requires Rearranges(i) && At(cu.data, offset, OpBytes(i) + Drops(k)) && fuel >= k + 1
    ensures Evaluate(cu, offset, |OpBytes(i)| + k, ctx, args, fuel) ==
            match Rearranged(i, args)
            case Throw(e) => Throw(e)
            case Value(now) => Reading(now, k)
  {
    hide Decode, At, Evaluate, Start, Exec, Reading, Rearranged;
    var code := OpBytes(i) + Drops(k);
    var s, st := cu.(data := code), Start(args);
    OwnSection(cu, offset, code, ctx, args, fuel);
    StartIs(args);
    OpDecodes(s, i, k);
    RearrangedExec(ctx, i, args, |OpBytes(i)|);
    assert Step(s, ctx, st) == Exec(ctx, i, st, |OpBytes(i)|);
    if Rearranged(i, args).Value? {
      DropsRead(s, ctx, Exec(ctx, i, st, |OpBytes(i)|).value, Rearranged(i, args).value, k, fuel - 1);
    }
  }

  // Operations that are not there.

  /** fbreg, piece, push_object_address, the calls, call_frame_cfa and bit_piece are not
      implemented; the reserved codes, the other high ones and the user range are unknown. */
  lemma MissingOps(cu: Section, op: byte, rest: seq<byte>, ctx: Context, args: seq<u64>, fuel: nat)
    requires cu.data == [op] + rest && fuel > 0
    ensures op in {0x91, 0x93, 0x97, 0x98, 0x99, 0x9a, 0x9c, 0x9d} ==>
      Evaluate(cu, 0, |cu.data|, ctx, args, fuel) == Throw(Runtime)
    ensures op in {0x00, 0x01, 0x02, 0x04, 0x05, 0x07} || op >= 0xa0 ==>
      Evaluate(cu, 0, |cu.data|, ctx, args, fuel) == Throw(Expression)
  {
    hide Decode, Evaluate;
    assert cu.data[0..1] == [op] && cu.data[0..|cu.data|] == cu.data;
    OwnSection(cu, 0, cu.data, ctx, args, fuel);
    OpByte(cu, 0, op);
    MissingOp(cu, op);
  }

  lemma MissingOp(s: Section, op: byte)
    ensures op in {0x91, 0x93, 0x97, 0x98, 0x99, 0x9a, 0x9c, 0x9d} ==> DecodeOp(s, op, 1) == Throw(Runtime)
    ensures op in {0x00, 0x01, 0x02, 0x04, 0x05, 0x07} || op >= 0xa0 ==> DecodeOp(s, op, 1) == Throw(Expression)
  {
  }

  /** Reading more bytes than an address has is an error. */
  lemma OversizedLoad(cu: Section, op: byte, n: byte, ctx: Context, args: seq<u64>, fuel: nat)
    requires op in {0x94, 0x95} && cu.data == [op, n] && n > cu.addrSize && fuel > 0
    ensures Evaluate(cu, 0, 2, ctx, args, fuel) == Throw(Expression)
  {
    hide Decode, Evaluate, ReadFixed;
    SmallMod(n, B64);
    SmallMod(n, 256);
    assert cu.data == [op] + [n] && cu.data[0..2] == cu.data;
    OwnSection(cu, 0, cu.data, ctx, args, fuel);
    ByteOperand(cu, 0, op, n);
  }

  // Arithmetic by opcode: the top of the stack is argument 0, the second entry argument 1.

  /** An expression of one operation. */
  lemma OneOpResult(cu: Section, offset: nat, code: seq<byte>, i: Instr, ctx: Context, args: seq<u64>, fuel: nat)
    requires At(cu.data, offset, code) && code != [] && fuel > 0
    requires Decode(cu.(data := code), 0) == Value((i, |code|)) && !i.Skip? && !i.Bra?
    ensures Evaluate(cu, offset, |code|, ctx, args, fuel) ==
            match Exec(ctx, i, Start(args), |code|)
            case Throw(e) => Throw(e)
            case Value(st) => Finish(st)
  {
    hide Decode, At, Evaluate, Start, Operated, NewLocation, Finish;
    OwnSection(cu, offset, code, ctx, args, fuel);
    StartIs(args);
  }

  function Top(x: int): Outcome<Result> {
    Value(Address(Wrap64(x)))
  }

  /** Entry and top combined by one operation of the whole stack. */
  lemma PairExec(ctx: Context, i: Instr, a: u64, b: u64, rest: seq<u64>, next: nat)
    requires i.Binary? || i.Compare?
    ensures |Initial([a, b] + rest)| >= 2
    ensures var r, v := Exec(ctx, i, Start([a, b] + rest), next),
                        if i.Binary? then BinaryValue(i.binary, b, a)
                        else Value(if RelationHolds(i.relation, b, a) then 1 else 0);
            if v.Throw? then r == Throw(v.error)
            else r.Value? && r.value.loc == None && r.value.stack == Initial(rest) + [v.value]
  {
    hide BinaryValue, RelationHolds, Room, Initial;
    InitialTwo(a, b, rest);
    TwoOnTop(Initial(rest), b, a);
    StartIs([a, b] + rest);
    assert Initial(rest) + [b] + [a] == Initial(rest) + [b, a];
  }

  /** and, div, minus, mod, mul, or, plus, shl, shr, shra and xor. */
  lemma BinaryResult(
    cu: Section, offset: nat, op: byte, ctx: Context, a: u64, b: u64, rest: seq<u64>, fuel: nat)
    requires At(cu.data, offset, [op]) && fuel > 0
    ensures var r := Evaluate(cu, offset, 1, ctx, [a, b] + rest, fuel);
            && (op == 0x1a ==> r == Top(Bits(And, b, a)))
            && (op == 0x1b ==>
                  r == if b == 0 || (Signed64(a) == -B63 && Signed64(b) == -1) then Throw(Undefined)
                       else Top(TruncDiv(Signed64(a), Signed64(b))))
            && (op == 0x1c ==> r == Top(b - a))
            && (op == 0x1d ==> r == if a == 0 then Throw(Undefined) else Top(b % a))
            && (op == 0x1e ==> r == Top(b * a))
            && (op == 0x21 ==> r == Top(Bits(Or, b, a)))
            && (op == 0x22 ==> r == Top(b + a))
            && (op == 0x24 ==> r == Top(b * Pow2(a)))
            && (op == 0x25 ==> r == Top(b / Pow2(a)))
            && (op == 0x26 ==>
                  r == if Signed64(b) == -B63 then Throw(Undefined) else Top(TruncDiv(Signed64(b), Pow2(a))))
            && (op == 0x27 ==> r == Top(Bits(Xor, b, a)))
  {
    hide At, Evaluate, Exec, Decode, Bits, Pow2, Wrap64, Start, TruncDiv;
    if op in {0x1a, 0x1b, 0x1c, 0x1d, 0x1e, 0x21, 0x22, 0x24, 0x25, 0x26, 0x27} {
      var s, i := cu.(data := [op]), Plain(cu.addrSize, op).value;
      OwnSection(cu, offset, [op], ctx, [a, b] + rest, fuel);
      PlainDecodes(s, 0, op, i);
      OneOpResult(cu, offset, [op], i, ctx, [a, b] + rest, fuel);
      PairExec(ctx, i, a, b, rest, 1);
      WordsAre(i.binary, a, b);
    }
  }

  lemma WordsAre(op: BinaryOp, a: u64, b: u64)
    ensures BinaryValue(op, b, a) == MapWrap(BinaryMeaning(op, b, a))
    ensures SignedWord(a) == Signed64(a) && SignedWord(b) == Signed64(b) && Wrap64(a) == a && Wrap64(b) == b
  {
    hide BinaryValue, BinaryMeaning;
    SmallMod(a, B64);
    SmallMod(b, B64);
    BinaryWord(op, b, a);
  }

  /** eq, ge, gt, le, lt and ne: all compare as less or equal. */
  lemma RelationResult(
    cu: Section, offset: nat, op: byte, ctx: Context, a: u64, b: u64, rest: seq<u64>, fuel: nat)
    requires At(cu.data, offset, [op]) && fuel > 0 && op in {0x29, 0x2a, 0x2b, 0x2c, 0x2d, 0x2e}
    ensures Evaluate(cu, offset, 1, ctx, [a, b] + rest, fuel) ==
            Value(Address(if Signed64(b) <= Signed64(a) then 1 else 0))
  {
    hide At, Evaluate, Exec, Decode, Start;
    var s, i := cu.(data := [op]), Plain(cu.addrSize, op).value;
    OwnSection(cu, offset, [op], ctx, [a, b] + rest, fuel);
    PlainDecodes(s, 0, op, i);
    OneOpResult(cu, offset, [op], i, ctx, [a, b] + rest, fuel);
    PairExec(ctx, i, a, b, rest, 1);
  }

  /** abs, neg and not. */
  lemma UnaryResult(cu: Section, offset: nat, op: byte, ctx: Context, a: u64, rest: seq<u64>, fuel: nat)
    requires At(cu.data, offset, [op]) && fuel > 0
    ensures var r, v := Evaluate(cu, offset, 1, ctx, [a] + rest, fuel), Signed64(a);
            && (op == 0x19 ==> r == if v == -B63 then Throw(Undefined) else Top(if v < 0 then -v else v))
            && (op == 0x1f ==> r == if v == -B63 then Throw(Undefined) else Top(-v))
            && (op == 0x20 ==> r == Value(Address(B64 - 1 - a)))
  {
    hide At, Evaluate, Exec, Decode, Start;
    if op in {0x19, 0x1f, 0x20} {
      var s, i := cu.(data := [op]), Plain(cu.addrSize, op).value;
      OwnSection(cu, offset, [op], ctx, [a] + rest, fuel);
      PlainDecodes(s, 0, op, i);
      OneOpResult(cu, offset, [op], i, ctx, [a] + rest, fuel);
      UnaryTop(ctx, i, a, rest, 1);
    }
  }

  lemma UnaryTop(ctx: Context, i: Instr, a: u64, rest: seq<u64>, next: nat)
    requires i.Unary?
    ensures var r, v := Exec(ctx, i, Start([a] + rest), next), UnaryValue(i.unary, a);
            if v.Throw? then r == Throw(v.error)
            else r.Value? && r.value.loc == None && r.value.stack == Initial(rest) + [v.value]
    ensures var v := Signed64(a); v != -B63 && v >= 0 ==> Wrap64(v) == a
  {
    hide UnaryValue, Room, Initial;
    InitialCons(a, rest);
    StartIs([a] + rest);
    assert (Initial(rest) + [a])[..|Initial(rest)|] == Initial(rest);
    SmallMod(a, B64);
  }

  /** addr: an address of the section's size. */
  lemma AddrResult(cu: Section, offset: nat, a: u64, ctx: Context, args: seq<u64>, fuel: nat)
    requires cu.addrSize in {1, 2, 4, 8} && a < Pow2(8 * cu.addrSize) && fuel > 0
    requires At(cu.data, offset, [0x03] + EncodeFixed(cu.ord, cu.addrSize, a))
    ensures Evaluate(cu, offset, 1 + cu.addrSize, ctx, args, fuel) == Value(Address(a))
  {
    hide At, Evaluate, Exec, Decode, Start, EncodeFixed, Pow2, ReadFixed, Plain;
    var bytes := EncodeFixed(cu.ord, cu.addrSize, a);
    var code := [0x03] + bytes;
    var s := cu.(data := code);
    EncodeFixedLength(cu.ord, cu.addrSize, a);
    OwnSection(cu, offset, code, ctx, args, fuel);
    AtAppend(code, 0, [0x03], bytes);
    OpByte(s, 0, 0x03);
    FixedRoundTrip(s, s.addrSize, a, 1);
    OneOpResult(cu, offset, code, Const(a), ctx, args, fuel);
    ConstTop(ctx, a, args, |code|);
  }

  lemma ConstTop(ctx: Context, a: u64, args: seq<u64>, next: nat)
    ensures var r := Exec(ctx, Const(a), Start(args), next);
            r.Value? && Finish(r.value) == Value(Address(a))
  {
    hide Room;
  }
}
