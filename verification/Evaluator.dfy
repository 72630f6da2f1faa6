/** The evaluation loop on a cursor and a growable stack. */
module Evaluators {
  import opened Outcomes
  import opened Words
  import opened Sections
  import opened Cursors
  import opened SmallVectors
  import opened Exprs

  method FetchConst(cur: Cursor, op: byte) returns (r: Outcome<u64>)
    requires op == 0x03 || 0x08 <= op <= 0x11
    modifies cur`pos
    ensures Follows(r, cur.pos, ReadConst(cur.sec, op, old(cur.pos)))
  {
    hide ReadFixed, ReadUleb, ReadSleb, ReadAddress, ReadFixedSigned;
    var i: int;
    match op {
      case 0x03 => r := cur.Address(); return;
      case 0x08 => r := cur.Fixed(1); return;
      case 0x0a => r := cur.Fixed(2); return;
      case 0x0c => r := cur.Fixed(4); return;
      case 0x0e => r := cur.Fixed(8); return;
      case 0x10 => r := cur.Uleb128(); return;
      case 0x09 => i :- cur.FixedSigned(1);
      case 0x0b => i :- cur.FixedSigned(2);
      case 0x0d => i :- cur.FixedSigned(4);
      case 0x0f => i :- cur.FixedSigned(8);
      case _ => i :- cur.Sleb128();
    }
    return Value(Wrap64(i));
  }

  method FetchOperands(cur: Cursor, op: byte) returns (r: Outcome<Instr>)
    modifies cur`pos
    ensures Follows(r, cur.pos, DecodeOperands(cur.sec, op, old(cur.pos)))
  {
    hide ReadFixed, ReadUleb, ReadSleb, ReadFixedSigned;
    match op {
      case 0x15 =>
        var n :- cur.Fixed(1);
        return Value(Pick(n));
      case 0x23 =>
        var u :- cur.Uleb128();
        return Value(PlusConst(u));
      case 0x28 =>
        var d :- cur.FixedSigned(2);
        return Value(Bra(d));
      case 0x2f =>
        var d :- cur.FixedSigned(2);
        return Value(Skip(d));
      case 0x90 =>
        var n :- cur.Uleb128();
        return Value(Register(n));
      case 0x92 =>
        var n :- cur.Uleb128();
        var i :- cur.Sleb128();
        return Value(RegOffset(Wrap32(n), i));
      case 0x94 =>
        var n :- cur.Fixed(1);
        return if n > cur.sec.addrSize then Throw(Expression) else Value(Load(n));
      case 0x95 =>
        var n :- cur.Fixed(1);
        return if n > cur.sec.addrSize then Throw(Expression) else Value(LoadSpace(n));
      case 0x9e =>
        var n :- cur.Uleb128();
        var _ :- cur.Ensure(n);
        return Value(ImplicitValue(cur.pos, n));
      case _ =>
        return Throw(Rejected(op));
    }
  }

  /** Read an operation and its operands. */
  method Fetch(cur: Cursor) returns (r: Outcome<Instr>)
    modifies cur`pos
    ensures Follows(r, cur.pos, Decode(cur.sec, old(cur.pos)))
  {
    hide ReadFixed, ReadSleb, ReadConst, Plain, DecodeOperands;
    var code :- cur.Fixed(1);
    var op := AsByte(code);
    if 0x30 <= op <= 0x4f {
      return Value(Const(op - 0x30));
    } else if 0x50 <= op <= 0x6f {
      return Value(Register(op - 0x50));
    } else if 0x70 <= op <= 0x8f {
      var i :- cur.Sleb128();
      return Value(RegOffset(op - 0x70, i));
    } else if op == 0x03 || 0x08 <= op <= 0x11 {
      var v :- FetchConst(cur, op);
      return Value(Const(v));
    } else {
      var plain := Plain(cur.sec.addrSize, op);
      if plain.Some? {
        return Value(plain.value);
      }
      r := FetchOperands(cur, op);
    }
  }

  /** The stack is as the specification says, or its error is thrown. */
  ghost predicate Performed(r: Outcome<()>, stack: SmallVector<u64>, spec: Outcome<seq<u64>>)
    requires stack.Valid()
    reads stack, stack.base
  {
    match spec
    case Throw(e) => r == Throw(e)
    case Value(st) => r == Value(()) && stack.View().items == st
  }

  /** The same with the capacity of the stack's buffer. */
  ghost predicate Operates(r: Outcome<()>, stack: SmallVector<u64>, spec: Outcome<(seq<u64>, nat)>)
    requires stack.Valid()
    reads stack, stack.base
  {
    match spec
    case Throw(e) => r == Throw(e)
    case Value((st, cap)) => r == Value(()) && stack.View().items == st && stack.base.Length == cap
  }

  /** Swap and rotate through references into the stack. */
  method Exchange(i: Instr, stack: SmallVector<u64>)
    requires stack.Valid() && (i.Swap? || i.Rot?) && stack.len >= Needs(i)
    modifies stack.base
    ensures stack.Valid()
    ensures forall ctx :: Value(stack.View().items) == NewStack(ctx, i, old(stack.View().items))
  {
    var tmp := stack.Back();
    stack.SetRevat(0, stack.Revat(1));
    ghost var st := old(stack.View().items);
    ghost var n := |st|;
    if i.Swap? {
      stack.SetRevat(1, tmp);
      assert stack.View().items == st[..n - 2] + [st[n - 1], st[n - 2]];
    } else {
      stack.SetRevat(1, stack.Revat(2));
      stack.SetRevat(2, tmp);
      assert stack.View().items == st[..n - 3] + [st[n - 1], st[n - 3], st[n - 2]];
    }
  }

  /** Pop the top and overwrite the element below it with the result. */
  method Combine(i: Instr, stack: SmallVector<u64>) returns (r: Outcome<()>)
    requires stack.Valid() && (i.Binary? || i.Compare?) && stack.len >= 2
    modifies stack, stack.base
    ensures stack.Valid() && stack.base == old(stack.base)
    ensures forall ctx :: Performed(r, stack, NewStack(ctx, i, old(stack.View().items)))
  {
    hide BinaryValue, RelationHolds;
    var top := stack.Back();
    stack.PopBack();
    var second := stack.Back();
    match i {
      case Binary(op) =>
        var v :- BinaryValue(op, second, top);
        stack.SetRevat(0, v);
      case Compare(rel) =>
        stack.SetRevat(0, if RelationHolds(rel, second, top) then 1 else 0);
    }
    return Value(());
  }

  /** `stack.back() = v`. */
  method Overwrite(stack: SmallVector<u64>, v: u64)
    requires stack.Valid() && stack.len > 0
    modifies stack.base
    ensures stack.Valid()
    ensures stack.View().items == old(stack.View().items)[..old(stack.len) - 1] + [v]
  {
    stack.SetRevat(0, v);
  }

  /** Replace the top by what a callback makes of it. */
  method CallBack(ctx: Context, i: Instr, stack: SmallVector<u64>) returns (r: Outcome<()>)
    requires stack.Valid() && stack.len >= Needs(i) && (i.Load? || i.LoadSpace? || i.Tls?)
    modifies stack, stack.base
    ensures stack.Valid() && stack.base == old(stack.base)
    ensures Performed(r, stack, NewStack(ctx, i, old(stack.View().items)))
  {
    var top := stack.Back();
    match i {
      case Load(size) =>
        var v :- Required(ctx.deref(top, size));
        Overwrite(stack, v);
      case LoadSpace(size) =>
        stack.PopBack();
        var v :- Required(ctx.xderef(top, stack.Back(), size));
        Overwrite(stack, v);
      case Tls =>
        var v :- Required(ctx.tls(top));
        Overwrite(stack, v);
    }
    return Value(());
  }

  /** Replace the top by what an operator makes of it. */
  method Replace(ctx: Context, i: Instr, stack: SmallVector<u64>) returns (r: Outcome<()>)
    requires stack.Valid() && stack.len > 0 && (i.Unary? || i.PlusConst?)
    modifies stack, stack.base
    ensures stack.Valid() && stack.base == old(stack.base)
    ensures Performed(r, stack, NewStack(ctx, i, old(stack.View().items)))
  {
    hide UnaryValue;
    var top := stack.Back();
    match i {
      case Unary(op) =>
        var v :- UnaryValue(op, top);
        Overwrite(stack, v);
      case PlusConst(u) => Overwrite(stack, Wrap64(top + u));
    }
    return Value(());
  }

  method PushOn(stack: SmallVector<u64>, v: u64)
    requires stack.Valid()
    modifies stack, stack.base
    ensures stack.Valid() && (stack.base == old(stack.base) || fresh(stack.base))
    ensures stack.View().items == old(stack.View().items) + [v]
    ensures stack.base.Length == Room(old(stack.base.Length), stack.len)
  {
    stack.PushBack(v);
    assert stack.len == |stack.View().items| && stack.base.Length == stack.View().cap;
  }

  /** Push a value that is not computed from the stack. */
  method Produce(ctx: Context, i: Instr, stack: SmallVector<u64>) returns (r: Outcome<()>)
    requires stack.Valid() && (i.Const? || i.RegOffset?)
    modifies stack, stack.base
    ensures stack.Valid() && (stack.base == old(stack.base) || fresh(stack.base))
    ensures Performed(r, stack, NewStack(ctx, i, old(stack.View().items)))
    ensures stack.base.Length == Room(old(stack.base.Length), stack.len)
  {
    match i {
      case Const(v) => PushOn(stack, v);
      case RegOffset(reg, offset) =>
        var v :- Required(ctx.reg(reg));
        var sum :- SignedResult(Signed64(v) + offset);
        PushOn(stack, sum);
    }
    return Value(());
  }

  /** Push an entry of the stack by reference. */
  method CopyOn(ctx: Context, i: Instr, stack: SmallVector<u64>) returns (r: Outcome<()>)
    requires stack.Valid() && stack.min == INLINE && stack.len >= Needs(i) && Copies(i)
    modifies stack, stack.base
    ensures stack.Valid() && (stack.base == old(stack.base) || fresh(stack.base))
    ensures Operates(r, stack, Operated(ctx, i, old(stack.View().items), old(stack.base.Length)))
  {
    var n := match i case Dup => 0 case Pick(k) => k case Over => 1;
    if n == stack.len {
      return Throw(Undefined);
    }
    r := stack.PushRevat(n);
  }

  /** Everything but the copies leaves the buffer, or grows it as a push does. */
  method Change(ctx: Context, i: Instr, stack: SmallVector<u64>) returns (r: Outcome<()>)
    requires stack.Valid() && stack.len >= Needs(i) && !Copies(i)
    modifies stack, stack.base
    ensures stack.Valid() && (stack.base == old(stack.base) || fresh(stack.base))
    ensures Performed(r, stack, NewStack(ctx, i, old(stack.View().items)))
    ensures stack.base.Length == Room(old(stack.base.Length), stack.len)
  {
    hide BinaryValue, UnaryValue, RelationHolds, Performed;
    DropsTop(ctx, i, stack.View().items);
    match i {
      case Const(_) | RegOffset(_, _) => r := Produce(ctx, i, stack);
      case Swap | Rot =>
        Exchange(i, stack);
        r := Value(());
        Done(ctx, i, stack, NewStack(ctx, i, old(stack.View().items)));
      case Load(_) | LoadSpace(_) | Tls => r := CallBack(ctx, i, stack);
      case Unary(_) | PlusConst(_) => r := Replace(ctx, i, stack);
      case Binary(_) | Compare(_) => r := Combine(i, stack);
      case Drop | Bra(_) =>
        stack.PopBack();
        r := Value(());
        Done(ctx, i, stack, NewStack(ctx, i, old(stack.View().items)));
      case Skip(_) | Nop | Register(_) | ImplicitValue(_, _) | StackValue =>
        r := Value(());
        Done(ctx, i, stack, NewStack(ctx, i, old(stack.View().items)));
    }
  }

  method Perform(ctx: Context, i: Instr, stack: SmallVector<u64>) returns (r: Outcome<()>)
    requires stack.Valid() && stack.min == INLINE && stack.len >= Needs(i)
    modifies stack, stack.base
    ensures stack.Valid() && (stack.base == old(stack.base) || fresh(stack.base))
    ensures Operates(r, stack, Operated(ctx, i, old(stack.View().items), old(stack.base.Length)))
  {
    hide NewStack, Room;
    if Copies(i) {
      r := CopyOn(ctx, i, stack);
    } else {
      r := Change(ctx, i, stack);
    }
  }

  lemma DropsTop(ctx: Context, i: Instr, st: seq<u64>)
    requires |st| >= Needs(i)
    ensures i.Drop? || i.Bra? ==> NewStack(ctx, i, st) == Value(st[..|st| - 1])
  {
  }

  lemma Done(ctx: Context, i: Instr, stack: SmallVector<u64>, spec: Outcome<seq<u64>>)
    requires stack.Valid() && spec == Value(stack.View().items)
    ensures Performed(Value(()), stack, spec)
  {
  }

  function GoTo(i: Instr, stack: SmallVector<u64>, next: nat): int
    requires stack.Valid() && stack.len >= Needs(i)
    reads stack, stack.base
    ensures GoTo(i, stack, next) == Target(i, stack.View().items, next)
  {
    match i
    case Skip(d) => next + d
    case Bra(d) => if stack.Back() != 0 then next + d else next
    case _ => next
  }

  function Locate(i: Instr, stack: SmallVector<u64>, loc: Option<Location>): Option<Location>
    requires stack.Valid() && stack.len >= Needs(i)
    reads stack, stack.base
    ensures Locate(i, stack, loc) == NewLocation(i, stack.View().items, loc)
  {
    match i
    case Register(n) => Some(InRegister(n))
    case ImplicitValue(start, len) => Some(Implicit(start, len))
    case StackValue => Some(Literal(stack.Back()))
    case _ => loc
  }

  /** One turn of the evaluation loop: the location made so far, or what is thrown. */
  method Turn(ctx: Context, cur: Cursor, stack: SmallVector<u64>, loc: Option<Location>)
    returns (r: Outcome<Option<Location>>)
    requires stack.Valid() && stack.min == INLINE
    modifies cur`pos, stack, stack.base
    ensures stack.Valid() && (stack.base == old(stack.base) || fresh(stack.base))
    ensures match Step(cur.sec, ctx, State(old(stack.View().items), old(stack.base.Length), loc, old(cur.pos)))
            case Throw(e) => r == Throw(e)
            case Value(st) => r == Value(st.loc) && State(stack.View().items, stack.base.Length, st.loc, cur.pos) == st
  {
    hide Decode, Operated, Target, NewLocation;
    var i :- Fetch(cur);
    if stack.len < Needs(i) {
      return Throw(StackUnderflow);
    }
    var target := GoTo(i, stack, cur.pos);
    var made := Locate(i, stack, loc);
    var _ :- Perform(ctx, i, stack);
    if target < 0 {
      return Throw(Undefined);
    }
    cur.pos := target;
    return Value(made);
  }

  /** The initial stack: the arguments in reverse. */
  method PushArguments(args: seq<u64>) returns (stack: SmallVector<u64>)
    ensures stack.Valid() && stack.min == INLINE && fresh(stack) && fresh(stack.base)
    ensures stack.View().items == Exprs.Initial(args) && stack.base.Length == Room(INLINE, |args|)
  {
    stack := new SmallVector<u64>(INLINE);
    stack.ReserveRoom(|args|);
    GrowBound(INLINE, |args|);
    var k := |args|;
    while k > 0
      invariant fresh(stack) && fresh(stack.base) && stack.Valid() && stack.min == INLINE
      invariant stack.base.Length == Room(INLINE, |args|) && stack.len == |args| - k
      invariant 0 <= k <= |args| && stack.View().items == Exprs.Initial(args[k..])
    {
      k := k - 1;
      PushOn(stack, args[k]);
      assert args[k..][1..] == args[k + 1..];
    }
    assert args[0..] == args;
  }

  /** `evaluate`, stopped after `fuel` operations if it has not ended by then. */
  method EvaluateExpr(cu: Section, offset: nat, len: nat, ctx: Context, args: seq<u64>, fuel: nat)
    returns (r: Outcome<Result>)
    ensures r == Evaluate(cu, offset, len, ctx, args, fuel)
  {
    hide Step;
    var stack := PushArguments(args);
    if offset + len > |cu.data| {
      return Throw(Undefined);
    }
    var subsec := cu.(data := cu.data[offset..offset + len]);
    var cur := new Cursor(subsec, 0);
    if cur.End() {
      return Value(Empty);
    }
    var loc: Option<Location> := None;
    var left := fuel;
    while !cur.End()
      invariant fresh(cur) && fresh(stack) && fresh(stack.base) && stack.Valid() && stack.min == INLINE
      invariant cur.sec == subsec
      invariant Run(subsec, ctx, State(stack.View().items, stack.base.Length, loc, cur.pos), left) ==
                Run(subsec, ctx, Exprs.Start(args), fuel)
      decreases left
    {
      if left == 0 {
        return Throw(Timeout);
      }
      left := left - 1;
      loc :- Turn(ctx, cur, stack, loc);
    }
    match loc
    case Some(l) => return Value(Located(l));
    case None =>
      if stack.Empty() {
        return Throw(Expression);
      }
      return Value(Address(stack.Back()));
  }
}
