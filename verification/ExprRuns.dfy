/** Runs of the stack machine, some operations at a time. */
module ExprRuns {
  import opened Outcomes
  import opened Words
  import opened Sections
  import opened SmallVectors
  import opened Exprs

  /** The state after n more operations, or after as many as there are to the end. */
  function After(s: Section, ctx: Context, st: State, n: nat): Outcome<State>
    decreases n
  {
    if n == 0 || st.pos >= |s.data| then Value(st)
    else
      var st' :- Step(s, ctx, st);
      After(s, ctx, st', n - 1)
  }

  /** ... and then m more. */
  function Onward(s: Section, ctx: Context, o: Outcome<State>, m: nat): Outcome<State> {
    match o
    case Throw(e) => Throw(e)
    case Value(st) => After(s, ctx, st, m)
  }

  lemma {:induction false} AfterThen(s: Section, ctx: Context, st: State, n: nat, m: nat)
    ensures After(s, ctx, st, n + m) == Onward(s, ctx, After(s, ctx, st, n), m)
    decreases n
  {
    hide Step;
    if n > 0 && st.pos < |s.data| {
      var st' := Step(s, ctx, st);
      if st'.Value? {
        AfterThen(s, ctx, st'.value, n - 1, m);
      }
    } else if st.pos >= |s.data| {
      assert After(s, ctx, st, n + m) == Value(st) == After(s, ctx, st, m);
    }
  }

  /** An evaluation with enough fuel for n operations is those n operations, then the rest. */
  lemma {:induction false} RunIsAfter(s: Section, ctx: Context, st: State, n: nat, fuel: nat)
    ensures match After(s, ctx, st, n)
            case Throw(e) => Run(s, ctx, st, n + fuel) == Throw(e)
            case Value(st') => Run(s, ctx, st, n + fuel) == Run(s, ctx, st', fuel)
    decreases n
  {
    hide Step;
    if n > 0 && st.pos < |s.data| {
      var st' := Step(s, ctx, st);
      if st'.Value? {
        RunIsAfter(s, ctx, st'.value, n - 1, fuel);
      }
    }
  }

  lemma OneStep(s: Section, ctx: Context, st: State, i: Instr, next: nat)
    requires Decode(s, st.pos) == Value((i, next))
    ensures st.pos < |s.data| && After(s, ctx, st, 1) == Exec(ctx, i, st, next)
  {
    hide Decode, Exec;
    DecodeAdvances(s, st.pos);
  }

  // The buffer under the stack.

  /** The highest that the stack is before and between n more operations, and after them. */
  function Peak(s: Section, ctx: Context, st: State, n: nat): nat
    decreases n
  {
    if n == 0 || st.pos >= |s.data| || Step(s, ctx, st).Throw? then |st.stack|
    else Max(|st.stack|, Peak(s, ctx, Step(s, ctx, st).value, n - 1))
  }

  /** The buffer has the room it would have, had the highest stack so far been reserved at once. */
  ghost predicate Housed(st: State, peak: nat) {
    |st.stack| <= peak && st.cap == Room(INLINE, peak)
  }

  lemma StepHoused(s: Section, ctx: Context, st: State, peak: nat)
    requires Housed(st, peak) && Step(s, ctx, st).Value?
    ensures var st' := Step(s, ctx, st).value; Housed(st', Max(peak, |st'.stack|))
  {
    hide Decode, NewStack, NewLocation, Target, Room;
    RoomTwice(INLINE, peak, |Step(s, ctx, st).value.stack|);
  }

  lemma {:induction false} AfterHoused(s: Section, ctx: Context, st: State, peak: nat, n: nat)
    requires Housed(st, peak) && After(s, ctx, st, n).Value?
    ensures Housed(After(s, ctx, st, n).value, Max(peak, Peak(s, ctx, st, n)))
    decreases n
  {
    hide Step, Room;
    if n > 0 && st.pos < |s.data| {
      var st' := Step(s, ctx, st).value;
      StepHoused(s, ctx, st, peak);
      AfterHoused(s, ctx, st', Max(peak, |st'.stack|), n - 1);
      PeakCovers(s, ctx, st', n - 1);
    }
  }

  lemma {:induction false} PeakCovers(s: Section, ctx: Context, st: State, n: nat)
    ensures |st.stack| <= Peak(s, ctx, st, n)
  {
    hide Step;
  }

  /** A stack of this height fills a buffer on the heap if it has never been higher. */
  predicate Brim(height: nat) {
    height > INLINE && Room(INLINE, height) == height
  }

  lemma {:induction false} GrowDoubles(cap: nat, n: nat) returns (k: nat)
    requires cap > 0
    ensures Grow(cap, n) == cap * Pow2(k)
    decreases n - cap
  {
    k := 0;
    if cap < n {
      k := GrowDoubles(2 * cap, n);
      Doubling(cap, k);
      k := k + 1;
    }
  }

  lemma {:induction false} GrowExactly(cap: nat, k: nat)
    requires cap > 0
    ensures Grow(cap, cap * Pow2(k)) == cap * Pow2(k)
    decreases k
  {
    hide Grow;
    GrowBound(cap, cap * Pow2(k));
    if k > 0 {
      Doubling(cap, k - 1);
      GrowExactly(2 * cap, k - 1);
      GrowOnce(cap, cap * Pow2(k));
    }
  }

  lemma GrowOnce(cap: nat, n: nat)
    requires 0 < cap
    ensures cap < n ==> Grow(cap, n) == Grow(2 * cap, n)
  {
  }

  lemma Doubling(cap: nat, k: nat)
    ensures 2 * cap * Pow2(k) == cap * Pow2(k + 1) && (cap > 0 ==> 2 * cap * Pow2(k) > cap)
  {
    MulMono(1, Pow2(k), cap);
  }

  /** The brims are 16, 32, 64 and so on. */
  lemma BrimIs(height: nat)
    ensures Brim(height) <==> exists k :: k > 0 && height == INLINE * Pow2(k)
  {
    hide Grow, Pow2;
    if Brim(height) {
      var k := GrowDoubles(INLINE, height);
      assert k > 0 by { PowZero(); }
    }
    forall k | k > 0 && height == INLINE * Pow2(k) ensures Brim(height) {
      GrowExactly(INLINE, k);
      Doubling(INLINE, k - 1);
    }
  }

  lemma PowZero()
    ensures Pow2(0) == 1
  {
  }

  /** In an evaluation the stack fills a buffer on the heap exactly when it is as high as it
      has been so far and that height is a brim. */
  lemma FullAtBrim(s: Section, ctx: Context, args: seq<u64>, n: nat)
    requires After(s, ctx, Start(args), n).Value?
    ensures var height, peak := |After(s, ctx, Start(args), n).value.stack|, Peak(s, ctx, Start(args), n);
            height <= peak && After(s, ctx, Start(args), n).value.cap == Room(INLINE, peak) &&
            (HeapFull(INLINE, height, Room(INLINE, peak)) <==> height == peak && Brim(height))
  {
    hide Step, Room;
    var st := Start(args);
    StartHoused(args);
    AfterHoused(s, ctx, st, |args|, n);
    PeakCovers(s, ctx, st, n);
    RoomTwice(INLINE, Peak(s, ctx, st, n), 0);
  }

  lemma {:induction false} InitialLength(args: seq<u64>)
    ensures |Initial(args)| == |args|
  {
    if args != [] {
      InitialLength(args[1..]);
    }
  }

  lemma StartHoused(args: seq<u64>)
    ensures Housed(Start(args), |args|) && |Start(args).stack| == |args|
  {
    hide Room;
    InitialLength(args);
  }

  // Static control flow.

  /** Every operation that can follow the one at pos, and those after it, jump forward. */
  ghost predicate NeverBack(s: Section, pos: nat)
    decreases |s.data| - pos
  {
    pos >= |s.data| ||
    match Decode(s, pos)
    case Throw(_) => true
    case Value((i, next)) =>
      DecodeAdvances(s, pos);
      && (i.Skip? || i.Bra? ==> i.distance >= 0 && NeverBack(s, next + i.distance))
      && (!i.Skip? ==> NeverBack(s, next))
  }

  /** A step moves on, and never to a place with a jump back. */
  lemma StepForward(s: Section, ctx: Context, st: State)
    requires NeverBack(s, st.pos) && st.pos < |s.data|
    ensures var r := Step(s, ctx, st);
            r.Value? ==> r.value.pos > st.pos && NeverBack(s, r.value.pos)
  {
    hide Decode, NewStack, NewLocation;
    DecodeAdvances(s, st.pos);
  }

  /** Without jumps back, evaluation ends - with a result or a throw - after at most as many
      operations as there are bytes. */
  lemma {:induction false} EndsInTime(s: Section, ctx: Context, st: State, n: nat)
    requires NeverBack(s, st.pos) && n + st.pos >= |s.data|
    ensures match After(s, ctx, st, n)
            case Throw(_) => true
            case Value(st') => st'.pos >= |s.data|
    decreases n
  {
    hide Step, NeverBack;
    if st.pos < |s.data| && Step(s, ctx, st).Value? {
      StepForward(s, ctx, st);
      EndsInTime(s, ctx, Step(s, ctx, st).value, n - 1);
    }
  }

  /** So more fuel than bytes never changes the result. */
  lemma FuelEnough(s: Section, ctx: Context, st: State, fuel: nat)
    requires NeverBack(s, st.pos) && fuel >= |s.data|
    ensures Run(s, ctx, st, fuel) == Run(s, ctx, st, |s.data|)
  {
    hide NeverBack, Step, Decode, Finish;
    EndsInTime(s, ctx, st, |s.data|);
    RunIsAfter(s, ctx, st, |s.data|, fuel - |s.data|);
    RunIsAfter(s, ctx, st, |s.data|, 0);
  }
}
