/** DW_OP_implicit_value: its block is checked to be there but not stepped over, so the bytes
    of the value are executed as operations. */
module ExprImplicit {
  import opened Outcomes
  import opened Words
  import opened Sections
  import opened SmallVectors
  import opened Exprs
  import opened ExprRuns
  import opened ExprEncode
  import opened ExprHeights
  import Leb128

  /** An operation whose effect on the height is the same in every context and on all values. */
  predicate Steady(i: Instr) {
    !Partial(i) && !i.Load? && !i.LoadSpace? && !i.Tls?
  }

  predicate Locates(i: Instr) {
    i.Register? || i.ImplicitValue? || i.StackValue?
  }

  /** On a stack of this height in a buffer of this capacity the operation has what it needs,
      and what it copies is still there. */
  predicate Supplied(i: Instr, height: nat, cap: nat) {
    Needs(i) <= height && (i.Pick? ==> i.n < height) && !(Copies(i) && HeapFull(INLINE, height, cap))
  }

  /** Run from pos on a stack of the given height and capacity, the bytes do nothing but change
      the stack: every operation that can be reached decodes, is supplied, makes no location,
      cannot throw, and jumps forward. */
  ghost predicate Quiet(s: Section, pos: nat, height: nat, cap: nat)
    decreases |s.data| - pos
  {
    pos >= |s.data| ||
    match Decode(s, pos)
    case Throw(_) => false
    case Value((i, next)) =>
      DecodeAdvances(s, pos);
      && Supplied(i, height, cap) && Steady(i) && !Locates(i)
      && var after := height + Delta(i);
      && (i.Skip? || i.Bra? ==> i.distance >= 0 && Quiet(s, next + i.distance, after, Room(cap, after)))
      && (!i.Skip? ==> Quiet(s, next, after, Room(cap, after)))
  }

  lemma SteadyStack(ctx: Context, i: Instr, st: State)
    requires Supplied(i, |st.stack|, st.cap) && Steady(i)
    ensures var r, after := Operated(ctx, i, st.stack, st.cap), |st.stack| + Delta(i);
            r.Value? && |r.value.0| == after && r.value.1 == Room(st.cap, after)
  {
    hide RelationHolds, Bitwise, Shr64, Shl64, Room;
  }

  lemma QuietStep(s: Section, ctx: Context, st: State)
    requires st.pos < |s.data| && Quiet(s, st.pos, |st.stack|, st.cap)
    ensures var r := Step(s, ctx, st);
            r.Value? && r.value.pos > st.pos && r.value.loc == st.loc &&
            Quiet(s, r.value.pos, |r.value.stack|, r.value.cap)
  {
    hide Decode, Operated, Steady, Room;
    DecodeAdvances(s, st.pos);
    SteadyStack(ctx, Decode(s, st.pos).value.0, st);
  }

  /** Executing a quiet block leaves the location made before it. */
  lemma {:induction false} QuietRuns(s: Section, ctx: Context, st: State, fuel: nat)
    requires Quiet(s, st.pos, |st.stack|, st.cap) && st.loc.Some? && fuel + st.pos >= |s.data|
    ensures Run(s, ctx, st, fuel) == Value(Located(st.loc.value))
    decreases fuel
  {
    hide Step, Quiet;
    if st.pos < |s.data| {
      QuietStep(s, ctx, st);
      QuietRuns(s, ctx, Step(s, ctx, st).value, fuel - 1);
    }
  }

  /** There is one way through the bytes from pos, the same in every context and on all values:
      no branches, no jumps back, no callbacks and nothing partial, up to one that does not
      decode. */
  ghost predicate Straight(s: Section, pos: nat)
    decreases |s.data| - pos
  {
    pos >= |s.data| ||
    match Decode(s, pos)
    case Throw(_) => true
    case Value((i, next)) =>
      DecodeAdvances(s, pos);
      && Steady(i) && !i.Bra?
      && (i.Skip? ==> i.distance >= 0)
      && Straight(s, if i.Skip? then next + i.distance else next)
  }

  /** Where the operation at pos leads. */
  function Onto(s: Section, pos: nat): nat
    requires Straight(s, pos) && pos < |s.data| && Decode(s, pos).Value?
  {
    var (i, next) := Decode(s, pos).value;
    if i.Skip? then next + i.distance else next
  }

  lemma ImplicitStart(s: Section, pos: nat)
    ensures Decode(s, pos).Value? && Decode(s, pos).value.0.ImplicitValue? ==>
      Decode(s, pos).value.0.start == Decode(s, pos).value.1
  {
    hide ReadUleb, ReadSleb, ReadFixed, ReadConst;
  }

  lemma StraightStep(s: Section, ctx: Context, st: State)
    requires st.pos < |s.data| && Straight(s, st.pos)
    ensures var d, r := Decode(s, st.pos), Step(s, ctx, st);
            (r.Value? <==> d.Value? && Supplied(d.value.0, |st.stack|, st.cap)) &&
            (r.Value? ==>
               && r.value.pos == Onto(s, st.pos) > st.pos && Straight(s, r.value.pos)
               && |r.value.stack| == |st.stack| + Delta(d.value.0)
               && r.value.cap == Room(st.cap, |r.value.stack|)
               && r.value.loc == NewLocation(d.value.0, st.stack, st.loc))
  {
    hide Decode, Steady, NewLocation, Room;
    DecodeAdvances(s, st.pos);
    var d := Decode(s, st.pos);
    if d.Value? && Supplied(d.value.0, |st.stack|, st.cap) {
      hide Operated;
      SteadyStack(ctx, d.value.0, st);
    }
  }

  lemma StraightLocation(s: Section, ctx: Context, st: State, start: nat, len: u64)
    requires st.pos < |s.data| && Straight(s, st.pos) && start <= st.pos
    requires Step(s, ctx, st).Value?
    ensures var i := Decode(s, st.pos).value.0;
            if Locates(i) then Step(s, ctx, st).value.loc != Some(Implicit(start, len))
            else Step(s, ctx, st).value.loc == st.loc
  {
    hide Decode, Step, Straight;
    StraightStep(s, ctx, st);
    ImplicitStart(s, st.pos);
  }

  /** A location once replaced does not come back. */
  lemma {:induction false} Replaced(s: Section, ctx: Context, st: State, fuel: nat, start: nat, len: u64)
    requires Straight(s, st.pos) && start <= st.pos && st.loc != Some(Implicit(start, len))
    ensures Run(s, ctx, st, fuel) != Value(Located(Implicit(start, len)))
    decreases fuel
  {
    hide Step, Decode, Straight;
    if st.pos < |s.data| && fuel > 0 && Step(s, ctx, st).Value? {
      StraightStep(s, ctx, st);
      StraightLocation(s, ctx, st, start, len);
      Replaced(s, ctx, Step(s, ctx, st).value, fuel - 1, start, len);
    }
  }

  /** For straight bytes, being quiet is exactly what it takes for the location to survive. */
  lemma {:induction false} StraightExact(s: Section, ctx: Context, st: State, fuel: nat, start: nat, len: u64)
    requires Straight(s, st.pos) && start <= st.pos && st.loc == Some(Implicit(start, len))
    requires fuel + st.pos >= |s.data|
    ensures Run(s, ctx, st, fuel) == Value(Located(Implicit(start, len))) <==>
            Quiet(s, st.pos, |st.stack|, st.cap)
    decreases fuel
  {
    hide Step, Decode, Straight, Steady, NewLocation, Supplied, Room;
    if st.pos < |s.data| {
      StraightStep(s, ctx, st);
      var r := Step(s, ctx, st);
      if r.Value? {
        StraightKind(s, st.pos);
        var i := Decode(s, st.pos).value.0;
        StraightLocation(s, ctx, st, start, len);
        if Locates(i) {
          Replaced(s, ctx, r.value, fuel - 1, start, len);
        } else {
          StraightExact(s, ctx, r.value, fuel - 1, start, len);
        }
      }
    }
  }

  lemma StraightKind(s: Section, pos: nat)
    requires pos < |s.data| && Straight(s, pos) && Decode(s, pos).Value?
    ensures var i := Decode(s, pos).value.0; Steady(i) && !i.Bra? && (i.Skip? ==> i.distance >= 0)
  {
    hide Decode, Steady;
  }

  lemma EmptyBlock(s: Section, pos: nat)
    requires At(s.data, pos, [0x9e] + Leb128.EncodeUnsigned(0, 0)) && pos + 2 == |s.data|
    ensures Decode(s, pos) == Throw(Underflow)
  {
    hide Decode, ReadUleb, Plain, At;
    assert Leb128.EncodeUnsigned(0, 0) == [0];
    AtAppend(s.data, pos, [0x9e], Leb128.EncodeUnsigned(0, 0));
    OpByte(s, pos, 0x9e);
    UlebRoundTrip(s, 0, 0, pos + 1);
    PlainNot(s.addrSize, 0x9e);
  }

  /** An implicit value whose block ends the expression, from any state that execution has come
      to: an empty block is an error; a quiet one is returned as it should be; and a straight one
      is returned only if it is quiet. */
  lemma ImplicitValueRuns(s: Section, ctx: Context, st: State, n: u64, fuel: nat)
    requires At(s.data, st.pos, [0x9e] + Leb128.EncodeUnsigned(n, 0))
    requires st.pos + 1 + |Leb128.EncodeUnsigned(n, 0)| + n == |s.data| && fuel + st.pos >= |s.data|
    ensures var start, cap := st.pos + 1 + |Leb128.EncodeUnsigned(n, 0)|, Room(st.cap, |st.stack|);
            var expected := Value(Located(Implicit(start, n)));
            && (n == 0 ==> Run(s, ctx, st, fuel) == Throw(Underflow))
            && (n > 0 && Quiet(s, start, |st.stack|, cap) ==> Run(s, ctx, st, fuel) == expected)
            && (n > 0 && Straight(s, start) ==>
                  (Run(s, ctx, st, fuel) == expected <==> Quiet(s, start, |st.stack|, cap)))
  {
    hide Decode, Quiet, Straight, At;
    if n == 0 {
      assert Leb128.EncodeUnsigned(0, 0) == [0];
      EmptyBlock(s, st.pos);
    } else {
      var start, cap := st.pos + 1 + |Leb128.EncodeUnsigned(n, 0)|, Room(st.cap, |st.stack|);
      InstrRoundTrip(s, ImplicitValue(start, n), st.pos);
      var st' := State(st.stack, cap, Some(Implicit(start, n)), start);
      assert Step(s, ctx, st) == Value(st');
      if Quiet(s, start, |st.stack|, cap) {
        QuietRuns(s, ctx, st', fuel - 1);
      }
      if Straight(s, start) {
        StraightExact(s, ctx, st', fuel - 1, start, n);
      }
    }
  }

  /** The same for an expression that is nothing but the implicit value. */
  lemma EvaluatesImplicit(cu: Section, offset: nat, ctx: Context, args: seq<u64>, n: u64, block: seq<byte>, fuel: nat)
    requires var code := [0x9e] + Leb128.EncodeUnsigned(n, 0) + block;
             At(cu.data, offset, code) && |block| == n && fuel >= |code|
    ensures var code := [0x9e] + Leb128.EncodeUnsigned(n, 0) + block;
            var s, start := cu.(data := code), |code| - n;
            var r, expected := Evaluate(cu, offset, |code|, ctx, args, fuel), Value(Located(Implicit(start, n)));
            && (n == 0 ==> r == Throw(Underflow))
            && (n > 0 && Quiet(s, start, |args|, Room(INLINE, |args|)) ==> r == expected)
            && (n > 0 && Straight(s, start) ==> (r == expected <==> Quiet(s, start, |args|, Room(INLINE, |args|))))
  {
    hide Run, Quiet, Straight;
    var code := [0x9e] + Leb128.EncodeUnsigned(n, 0) + block;
    var s := cu.(data := code);
    assert cu.data[offset..offset + |code|] == code;
    assert At(s.data, 0, s.data);
    AtAppend(s.data, 0, [0x9e] + Leb128.EncodeUnsigned(n, 0), block);
    InitialLength(args);
    RoomTwice(INLINE, |args|, |args|);
    ImplicitValueRuns(s, ctx, Start(args), n, fuel);
  }

  /** A one-byte value that happens to be the opcode of drop is executed, on an empty stack. */
  lemma BlockIsExecuted(cu: Section, ctx: Context, fuel: nat)
    requires cu.data == [0x9e, 1, 0x13] && fuel >= 2
    ensures Evaluate(cu, 0, 3, ctx, [], fuel) == Throw(StackUnderflow)
  {
    hide Decode, At;
    var st := Start([]);
    assert Leb128.EncodeUnsigned(1, 0) == [1];
    assert At(cu.data, 0, [0x9e, 1]) by { assert cu.data[0..2] == [0x9e, 1]; AtIs(cu.data, 0, [0x9e, 1]); }
    assert At(cu.data, 2, [0x13]) by { assert cu.data[2..3] == [0x13]; AtIs(cu.data, 2, [0x13]); }
    assert [0x9e, 1] == [0x9e] + Leb128.EncodeUnsigned(1, 0);
    InstrRoundTrip(cu, ImplicitValue(2, 1), 0);
    PlainDecodes(cu, 2, 0x13, Drop);
    assert cu.data[0..3] == cu.data;
    var st' := st.(loc := Some(Implicit(2, 1)), pos := 2);
    assert Step(cu, ctx, st) == Value(st');
    assert Step(cu, ctx, st') == Throw(StackUnderflow);
    assert Run(cu, ctx, st', fuel - 1) == Throw(StackUnderflow);
  }

  lemma AtIs(d: seq<byte>, pos: nat, bs: seq<byte>)
    requires pos + |bs| <= |d| && d[pos..pos + |bs|] == bs
    ensures At(d, pos, bs)
  {
  }

  /** An empty value at the end of an expression is refused. */
  lemma EmptyIsRefused(cu: Section, ctx: Context, args: seq<u64>, fuel: nat)
    requires cu.data == [0x9e, 0] && fuel >= 2
    ensures Evaluate(cu, 0, 2, ctx, args, fuel) == Throw(Underflow)
  {
    assert Leb128.EncodeUnsigned(0, 0) == [0];
    assert cu.data[0..2] == cu.data == [0x9e] + [0] + [];
    EvaluatesImplicit(cu, 0, ctx, args, 0, [], fuel);
  }

  /** A value longer than what is left of the expression is refused. */
  lemma LongIsRefused(s: Section, ctx: Context, st: State, n: u64, fuel: nat)
    requires At(s.data, st.pos, [0x9e] + Leb128.EncodeUnsigned(n, 0)) && fuel > 0
    requires st.pos + 1 + |Leb128.EncodeUnsigned(n, 0)| + n > |s.data|
    ensures Run(s, ctx, st, fuel) == Throw(Underflow)
  {
    hide Decode, ReadUleb, Plain, At;
    AtAppend(s.data, st.pos, [0x9e], Leb128.EncodeUnsigned(n, 0));
    OpByte(s, st.pos, 0x9e);
    UlebRoundTrip(s, n, 0, st.pos + 1);
    PlainNot(s.addrSize, 0x9e);
  }
}
