/** Stack heights: an assignment of heights to offsets, checked edge by edge, rules out stack
    underflow in every run. */
module ExprHeights {
  import opened Outcomes
  import opened Words
  import opened Sections
  import opened SmallVectors
  import opened Exprs
  import opened ExprRuns
  import Forms

  type Heights = map<nat, nat>

  /** What an operation adds to the height. */
  function Delta(i: Instr): int {
    match i
    case Const(_) | RegOffset(_, _) | Dup | Pick(_) | Over => 1
    case Drop | LoadSpace(_) | Binary(_) | Compare(_) | Bra(_) => -1
    case _ => 0
  }

  predicate Assigned(hs: Heights, pos: int, height: int) {
    pos in hs && hs[pos] == height
  }

  /** The operation at o has what it needs at its height, a pick stays inside the stack, and
      the heights agree along the fall-through and the branch. */
  ghost predicate Agrees(s: Section, hs: Heights, o: nat)
    requires o in hs
  {
    o >= |s.data| ||
    match Decode(s, o)
    case Throw(_) => true
    case Value((i, next)) =>
      && Needs(i) <= hs[o] && (i.Pick? ==> i.n < hs[o])
      && (!i.Skip? ==> Assigned(hs, next, hs[o] + Delta(i)))
      && (i.Skip? || i.Bra? ==> Assigned(hs, next + i.distance, hs[o] + Delta(i)))
  }

  ghost predicate Consistent(s: Section, hs: Heights) {
    forall o :: o in hs ==> Agrees(s, hs, o)
  }

  /** Operations that C++ leaves undefined on some values: divisions, and signed arithmetic
      that can overflow. */
  predicate Partial(i: Instr) {
    i.RegOffset? || i in {Unary(Abs), Unary(Neg), Binary(DivOp), Binary(ModOp), Binary(ShraOp)}
  }

  /** No assigned offset holds such an operation, or a copy at a height that can fill a buffer
      on the heap. */
  ghost predicate Careful(s: Section, hs: Heights) {
    forall o :: o in hs && Decode(s, o).Value? ==>
      !Partial(Decode(s, o).value.0) && !(Copies(Decode(s, o).value.0) && Brim(hs[o]))
  }

  ghost predicate AtHeight(hs: Heights, st: State) {
    st.pos in hs && |st.stack| == hs[st.pos]
  }

  lemma ReadersThrow(s: Section, pos: nat)
    ensures ReadUleb(s, pos).Throw? ==> ReadUleb(s, pos).error == Underflow
    ensures ReadSleb(s, pos).Throw? ==> ReadSleb(s, pos).error == Underflow
  {
    Forms.LengthThrows(Rest(s, pos));
  }

  lemma DecodeThrows(s: Section, pos: nat)
    ensures Decode(s, pos).Throw? ==> Decode(s, pos).error in {Underflow, Runtime, Expression}
  {
    hide ReadUleb, ReadSleb, Plain;
    if pos < |s.data| {
      ReadersThrow(s, pos + 1);
      if ReadUleb(s, pos + 1).Value? {
        ReadersThrow(s, ReadUleb(s, pos + 1).value.1);
      }
    }
  }

  /** The stack after an operation that had what it needs. */
  lemma HeightAfter(ctx: Context, i: Instr, st: seq<u64>)
    requires |st| >= Needs(i) && (i.Pick? ==> i.n < |st|)
    ensures match NewStack(ctx, i, st)
            case Value(st') => |st'| == |st| + Delta(i)
            case Throw(e) => e == Expression || (e == Undefined && Partial(i))
  {
    hide RelationHolds, Bitwise, Shr64, Shl64, Remainder, TruncDiv;
  }

  /** A full buffer on the heap is at a brim. */
  lemma FullIsBrim(st: State, peak: nat)
    requires Housed(st, peak) && HeapFull(INLINE, |st.stack|, st.cap)
    ensures Brim(|st.stack|)
  {
    hide Room;
    RoomTwice(INLINE, peak, 0);
  }

  lemma StepAtHeight(s: Section, ctx: Context, hs: Heights, st: State, peak: nat)
    requires Consistent(s, hs) && AtHeight(hs, st) && Housed(st, peak) && st.pos < |s.data|
    ensures var r := Step(s, ctx, st);
            && (r.Value? ==> AtHeight(hs, r.value))
            && (r.Throw? ==> r.error != StackUnderflow && (Careful(s, hs) ==> r.error != Undefined))
  {
    hide Decode, NewStack, NewLocation, Room, Brim;
    DecodeThrows(s, st.pos);
    assert Agrees(s, hs, st.pos);
    if Decode(s, st.pos).Value? {
      var (i, next) := Decode(s, st.pos).value;
      HeightAfter(ctx, i, st.stack);
      if HeapFull(INLINE, |st.stack|, st.cap) {
        FullIsBrim(st, peak);
      }
    }
  }

  /** With consistent heights no run throws a stack underflow, nor - without operations that
      can overflow or divide by zero, and without copies at a brim - does anything undefined;
      and wherever a run has come to, or ended, the stack has the height assigned there. */
  lemma {:induction false} HeightsSound(s: Section, ctx: Context, hs: Heights, st: State, peak: nat, n: nat)
    requires Consistent(s, hs) && AtHeight(hs, st) && Housed(st, peak)
    ensures match After(s, ctx, st, n)
            case Value(st') => AtHeight(hs, st')
            case Throw(e) => e != StackUnderflow && (Careful(s, hs) ==> e != Undefined)
    decreases n
  {
    hide Step, Consistent, AtHeight, Careful, Housed;
    if n > 0 && st.pos < |s.data| {
      StepAtHeight(s, ctx, hs, st, peak);
      if Step(s, ctx, st).Value? {
        var st' := Step(s, ctx, st).value;
        StepHoused(s, ctx, st, peak);
        HeightsSound(s, ctx, hs, st', Max(peak, |st'.stack|), n - 1);
      }
    }
  }

  /** The same for an evaluation, which starts as high as its arguments are many. */
  lemma EvaluationSound(cu: Section, offset: nat, len: nat, ctx: Context, args: seq<u64>, hs: Heights, fuel: nat)
    requires offset + len <= |cu.data|
    requires var s := cu.(data := cu.data[offset..offset + len]);
             Consistent(s, hs) && Assigned(hs, 0, |args|)
    ensures var s, r := cu.(data := cu.data[offset..offset + len]), Evaluate(cu, offset, len, ctx, args, fuel);
            r != Throw(StackUnderflow) && (Careful(s, hs) ==> r != Throw(Undefined))
  {
    hide Step, Consistent, Careful, Housed;
    var s, st := cu.(data := cu.data[offset..offset + len]), Start(args);
    StartHoused(args);
    HeightsSound(s, ctx, hs, st, |args|, fuel);
    RunIsAfter(s, ctx, st, fuel, 0);
  }
}
