/** Where the operations of the machine compute what sections 2.5.1.3 and 2.5.1.4 of DWARF
    Version 4 ask for, and where they do not. */
module ExprExact {
  import opened Outcomes
  import opened Words
  import opened Sections
  import opened SmallVectors
  import opened Exprs
  import opened ExprRuns
  import ExprEncode

  /** The relation an operation is named after, on the signed readings. */
  predicate Related(rel: Relation, a: int, b: int) {
    match rel
    case Eq => a == b
    case Ge => a >= b
    case Gt => a > b
    case Le => a <= b
    case Lt => a < b
    case Ne => a != b
  }

  /** When the two compared entries are such that `<=` has the truth value of the relation. */
  predicate RelationAgrees(rel: Relation, second: u64, top: u64) {
    match rel
    case Le => true
    case Lt => second != top
    case Eq => !(Signed64(second) < Signed64(top))
    case Ge => second == top
    case Ne => Signed64(second) < Signed64(top)
    case Gt => false
  }

  /** Of the six relations only le is always right; gt never is. */
  lemma RelationExact(rel: Relation, second: u64, top: u64)
    ensures RelationHolds(rel, second, top) == Related(rel, Signed64(second), Signed64(top)) <==>
            RelationAgrees(rel, second, top)
  {
  }

  function Magnitude(x: int): nat {
    if x < 0 then -x else x
  }

  lemma SmallQuotient(a: int, b: int)
    requires b != 0
    ensures Magnitude(a) < Magnitude(b) ==> TruncDiv(a, b) == 0
    ensures Magnitude(a) >= Magnitude(b) ==> TruncDiv(a, b) != 0
  {
    var x, m := Magnitude(a), Magnitude(b);
    if x < m {
      DivModUnique(x, m, 0, x);
    } else {
      AtLeastOne(x, m);
    }
  }

  /** The quotient rounds toward zero: what remains is smaller than the divisor and has the
      dividend's sign. */
  lemma TruncDivIs(a: int, b: int)
    requires b != 0
    ensures var r := a - TruncDiv(a, b) * b;
            Magnitude(r) < Magnitude(b) && (r == 0 || (r < 0 <==> a < 0))
  {
    hide TruncDiv;
    var q, r := SignedQuotient(a, b);
    RemainderSign(a, b, TruncDiv(a, b), q, r);
  }

  lemma RemainderSign(a: int, b: int, t: int, q: int, r: int)
    requires b != 0 && 0 <= r < Magnitude(b) && Magnitude(a) == q * Magnitude(b) + r
    requires t == if (a >= 0) == (b > 0) then q else -q
    ensures var rest := a - t * b; Magnitude(rest) == r && (rest == 0 || (rest < 0 <==> a < 0))
  {
    SignedProduct(a, b, q);
  }

  lemma SignedProduct(a: int, b: int, q: int)
    requires b != 0
    ensures (if (a >= 0) == (b > 0) then q else -q) * b == if a >= 0 then q * Magnitude(b) else -(q * Magnitude(b))
  {
    SignedProducts(q, Magnitude(b));
  }

  /** The quotient of the magnitudes, negative if the signs differ. */
  lemma SignedQuotient(a: int, b: int) returns (q: int, r: int)
    requires b != 0
    ensures Magnitude(a) == q * Magnitude(b) + r && 0 <= r < Magnitude(b)
    ensures TruncDiv(a, b) == if (a >= 0) == (b > 0) then q else -q
  {
    q, r := Magnitude(a) / Magnitude(b), Magnitude(a) % Magnitude(b);
    ModSplit(Magnitude(a), Magnitude(b));
  }

  lemma SignedProducts(q: int, m: int)
    ensures (-q) * m == -(q * m) && q * (-m) == -(q * m) && (-q) * (-m) == q * m
  {
  }

  /** and, or and xor, digit by digit. */
  lemma BitwiseIs(second: u64, top: u64, i: nat)
    ensures var and, or := BinaryValue(AndOp, second, top), BinaryValue(OrOp, second, top);
            var xor := BinaryValue(XorOp, second, top);
            var a, b := (second / Pow2(i)) % 2 == 1, (top / Pow2(i)) % 2 == 1;
            && and.Value? && or.Value? && xor.Value?
            && ((and.value / Pow2(i)) % 2 == 1 <==> a && b)
            && ((or.value / Pow2(i)) % 2 == 1 <==> a || b)
            && ((xor.value / Pow2(i)) % 2 == 1 <==> a != b)
  {
    hide Bits, Bit, Pow2;
    BitsAt(And, second, top, i);
    BitsAt(Or, second, top, i);
    BitsAt(Xor, second, top, i);
    BitIs(second, i);
    BitIs(top, i);
    BitIs(Bits(And, second, top), i);
    BitIs(Bits(Or, second, top), i);
    BitIs(Bits(Xor, second, top), i);
  }

  lemma AtLeastOne(x: nat, m: nat)
    requires 0 < m <= x
    ensures x / m >= 1
  {
    if x / m <= 0 {
      ModSplit(x, m);
      MulMono(x / m, 0, m);
    }
  }

  lemma SameSize(a: int, b: int)
    requires b != 0 && Magnitude(a) == Magnitude(b)
    ensures TruncDiv(a, b) == TruncDiv(b, a)
  {
    DivModUnique(Magnitude(a), Magnitude(a), 1, 0);
  }

  /** The division divides the top by the second entry, not the second by the top.  Wherever
      the standard's quotient exists, the operation gives it exactly when the two entries have
      the same absolute value: 0 divided by anything, for one, is undefined instead. */
  lemma DivisionExact(second: u64, top: u64)
    requires Quotient(second, top).Value?
    ensures BinaryValue(DivOp, second, top) == Quotient(second, top) <==>
            Magnitude(Signed64(second)) == Magnitude(Signed64(top))
  {
    hide TruncDiv;
    var a, b := Signed64(top), Signed64(second);
    if b != 0 {
      SmallQuotient(a, b);
      SmallQuotient(b, a);
      if Magnitude(a) == Magnitude(b) {
        SameSize(a, b);
      } else {
        QuotientFits(a, b);
        QuotientFits(b, a);
        WrapZero(TruncDiv(a, b));
        WrapZero(TruncDiv(b, a));
      }
    }
  }

  lemma QuotientFits(a: int, b: int)
    requires b != 0 && -B63 <= a < B63
    ensures -B63 <= TruncDiv(a, b) <= B63
  {
    QuotientBound(Magnitude(a), Magnitude(b));
  }

  lemma WrapZero(x: int)
    requires -B63 <= x <= B63
    ensures Wrap64(x) == 0 <==> x == 0
  {
    if x < 0 {
      ModShift(x, 1, B64);
      SmallMod(x + B64, B64);
    } else {
      SmallMod(x, B64);
    }
  }

  /** The arithmetic shift rounds toward zero: it gives the rounding down of a sign-extending
      shift exactly for numbers that are not negative, or lose no bits and can be negated. */
  lemma ShiftExact(x: u64, n: u64)
    ensures BinaryValue(ShraOp, x, n) == Value(Wrap64(Signed64(x) / Pow2(n))) <==>
            Signed64(x) >= 0 || (Signed64(x) != -B63 && Signed64(x) % Pow2(n) == 0)
  {
    hide Pow2;
    var v, p := Signed64(x), Pow2(n);
    if v == -B63 {
    } else if n >= 64 {
      OverShift(x, n);
    } else if v >= 0 {
      QuotientBound(x, p);
      SmallMod(x / p, B64);
    } else {
      NegativeShift(v, p);
      SmallMod(-v, B64);
    }
  }

  /** Shifting out every bit leaves 0, where a sign-extending shift of a negative number
      leaves -1. */
  lemma OverShift(x: u64, n: u64)
    requires n >= 64 && Signed64(x) != -B63
    ensures Shra64(x, n) == Value(0) && Pow2(n) >= B64
    ensures Signed64(x) / Pow2(n) == (if Signed64(x) < 0 then -1 else 0)
    ensures Signed64(x) % Pow2(n) == (if Signed64(x) < 0 then Pow2(n) else 0) + Signed64(x)
  {
    hide Pow2;
    var v, p := Signed64(x), Pow2(n);
    assert p >= B64 by {
      Pow2Of64();
      Pow2Mono(64, n);
    }
    DivModUnique(v, p, if v < 0 then -1 else 0, if v < 0 then v + p else v);
  }

  /** Minus the quotient of -v is the quotient of v, or one more. */
  lemma NegativeShift(v: int, p: nat)
    requires -B63 <= v < 0 && p > 0
    ensures Wrap64(0 - (-v) / p) == Wrap64(v / p) <==> v % p == 0
  {
    var q, r := v / p, v % p;
    ModSplit(v, p);
    QuotientBound(-v, p);
    NegateProduct(q, p);
    if r == 0 {
      DivModUnique(-v, p, -q, 0);
    } else {
      DivModUnique(-v, p, -q - 1, p - r);
      assert 0 - (-v) / p == q + 1;
      Neighbours(q);
    }
  }

  lemma NegateProduct(q: int, p: int)
    ensures (-q) * p == -(q * p) && (-q - 1) * p == -(q * p) - p
  {
  }

  lemma Neighbours(q: int)
    ensures Wrap64(q + 1) != Wrap64(q)
  {
  }

  /** The magnitude and the negation are those of the signed reading, which one number does
      not have. */
  lemma NegationExact(x: u64)
    ensures var v := Signed64(x);
            && (UnaryValue(Abs, x).Value? <==> v != -B63) && (UnaryValue(Neg, x).Value? <==> v != -B63)
            && (v != -B63 ==> Signed64(UnaryValue(Abs, x).value) == Magnitude(v))
            && (v != -B63 ==> Signed64(UnaryValue(Neg, x).value) == -v)
  {
    var v := Signed64(x);
    if v > 0 {
      ModShift(-v, 1, B64);
      SmallMod(B64 - v, B64);
    } else if v != -B63 {
      SmallMod(-v, B64);
    }
  }

  // Copying an entry of the stack.

  /** How far below the top the entry is that an operation copies. */
  function Below(i: Instr): nat
    requires Copies(i)
  {
    match i case Dup => 0 case Over => 1 case Pick(n) => n
  }

  /** A copy of an entry inside the stack pushes that entry, unless the stack fills a buffer on
      the heap: then the entry is read after its buffer has been deleted.  A pick whose index is
      the depth passes the depth check and reads before the stack; only larger ones underflow. */
  lemma CopyExact(ctx: Context, i: Instr, st: State, next: nat)
    requires Copies(i)
    ensures var r, n, depth := Exec(ctx, i, st, next), Below(i), |st.stack|;
            && (r.Value? <==> n < depth && !HeapFull(INLINE, depth, st.cap))
            && (r == Throw(StackUnderflow) <==> depth < n || (depth == n && !i.Pick?))
            && (r == Throw(Undefined) <==> (n < depth && HeapFull(INLINE, depth, st.cap)) || (i.Pick? && n == depth))
            && (r.Value? ==> r.value.stack == st.stack + [st.stack[depth - 1 - n]])
  {
  }

  /** So in any evaluation that has come to a copy: it is undefined exactly at a brim that the
      stack has not been above, or for a pick whose index is the depth. */
  lemma CopyInRun(s: Section, ctx: Context, args: seq<u64>, n: nat, i: Instr, next: nat)
    requires After(s, ctx, Start(args), n).Value? && Copies(i)
    requires Decode(s, After(s, ctx, Start(args), n).value.pos) == Value((i, next))
    ensures var st, peak := After(s, ctx, Start(args), n).value, Peak(s, ctx, Start(args), n);
            var r, depth := Step(s, ctx, st), |st.stack|;
            && (r.Value? <==> Below(i) < depth && !(depth == peak && Brim(depth)))
            && (r == Throw(Undefined) <==>
                  (Below(i) < depth == peak && Brim(depth)) || (i.Pick? && Below(i) == depth))
            && (r.Value? ==> r.value.stack == st.stack + [st.stack[depth - 1 - Below(i)]])
  {
    hide Decode, Exec, Brim, Room, After, Peak, Start;
    FullAtBrim(s, ctx, args, n);
    CopyExact(ctx, i, After(s, ctx, Start(args), n).value, next);
  }

  function Zeros(n: nat): seq<u64> {
    seq(n, _ => 0)
  }

  predicate Literals(s: Section, n: nat) {
    n <= |s.data| && forall k :: 0 <= k < n ==> s.data[k] == 0x30
  }

  lemma LiteralDecodes(s: Section, k: nat, n: nat)
    requires Literals(s, n) && k < n
    ensures Decode(s, k) == Value((Const(0), k + 1))
  {
    hide Decode;
    assert s.data[k..k + 1] == [0x30];
    ExprEncode.OpByte(s, k, 0x30);
  }

  lemma {:induction false} LiteralsPush(s: Section, ctx: Context, k: nat)
    requires Literals(s, 16) && k <= 16
    ensures After(s, ctx, Start([]), k) == Value(State(Zeros(k), Room(INLINE, k), None, k))
  {
    hide Decode, Literals, Room, Zeros, Exec, Start, Step;
    if k == 0 {
      LiteralsStart();
    } else {
      var st := State(Zeros(k - 1), Room(INLINE, k - 1), None, k - 1);
      LiteralsPush(s, ctx, k - 1);
      LiteralDecodes(s, k - 1, 16);
      OneStep(s, ctx, st, Const(0), k);
      LiteralPushes(ctx, k - 1);
      AfterThen(s, ctx, Start([]), k - 1, 1);
    }
  }

  lemma LiteralsStart()
    ensures Start([]) == State(Zeros(0), Room(INLINE, 0), None, 0)
  {
  }

  lemma LiteralPushes(ctx: Context, k: nat)
    ensures Exec(ctx, Const(0), State(Zeros(k), Room(INLINE, k), None, k), k + 1) ==
            Value(State(Zeros(k + 1), Room(INLINE, k + 1), None, k + 1))
  {
    hide Room;
    RoomTwice(INLINE, k, k + 1);
    assert Zeros(k + 1) == Zeros(k) + [0];
  }

  lemma RoomOf()
    ensures Room(INLINE, 0) == 8 && Room(INLINE, 16) == 16
  {
  }

  /** Sixteen literals fill a buffer on the heap: a dup, an over, or a pick of any of them is
      then undefined. */
  lemma FullCopy(cu: Section, ctx: Context, i: Instr, fuel: nat)
    requires Copies(i) && Below(i) < 16 && fuel >= 17
    requires cu.data == seq(16, _ => 0x30) + ExprEncode.EncodeInstr(cu, i)
    ensures Evaluate(cu, 0, |cu.data|, ctx, [], fuel) == Throw(Undefined)
  {
    hide Step, Room, Zeros, Start;
    var st := State(Zeros(16), Room(INLINE, 16), None, 16);
    assert cu.data[0..|cu.data|] == cu.data;
    LiteralsPush(cu, ctx, 16);
    RunIsAfter(cu, ctx, Start([]), 16, fuel - 16);
    CopyFails(cu, ctx, i, st);
  }

  lemma CopyFails(s: Section, ctx: Context, i: Instr, st: State)
    requires Copies(i) && Below(i) < 16 && st.pos == 16
    requires st.stack == Zeros(16) && st.cap == Room(INLINE, 16)
    requires s.data == seq(16, _ => 0x30) + ExprEncode.EncodeInstr(s, i)
    ensures Step(s, ctx, st) == Throw(Undefined) && |s.data| > 16
  {
    hide Decode, Room, NewStack;
    var code := ExprEncode.EncodeInstr(s, i);
    assert s.data[16..16 + |code|] == code;
    ExprEncode.InstrRoundTrip(s, i, 16);
    DecodeAdvances(s, 16);
    RoomOf();
  }

  // Rearranging the stack.

  /** Swap keeps the entries, and those below the two it exchanges in place. */
  lemma SwapExchanges(ctx: Context, base: seq<u64>, b: u64, a: u64)
    ensures NewStack(ctx, Swap, base + [b, a]) == Value(base + [a, b])
  {
    var st := base + [b, a];
    assert st[..|st| - 2] == base;
  }

  /** Rotate makes the top the third entry, the second the top, and the third the second. */
  lemma RotRotates(ctx: Context, base: seq<u64>, c: u64, b: u64, a: u64)
    ensures NewStack(ctx, Rot, base + [c, b, a]) == Value(base + [a, c, b])
  {
    var st := base + [c, b, a];
    assert st[..|st| - 3] == base;
  }

  lemma SwapTwice(ctx: Context, base: seq<u64>, b: u64, a: u64)
    ensures var once := NewStack(ctx, Swap, base + [b, a]);
            once.Value? && |once.value| >= 2 && NewStack(ctx, Swap, once.value) == Value(base + [b, a])
  {
    SwapExchanges(ctx, base, b, a);
    SwapExchanges(ctx, base, a, b);
  }

  lemma RotThrice(ctx: Context, base: seq<u64>, c: u64, b: u64, a: u64)
    ensures var once := NewStack(ctx, Rot, base + [c, b, a]);
            once.Value? && |once.value| >= 3 &&
            var twice := NewStack(ctx, Rot, once.value);
            twice.Value? && |twice.value| >= 3 && NewStack(ctx, Rot, twice.value) == Value(base + [c, b, a])
  {
    RotRotates(ctx, base, c, b, a);
    RotRotates(ctx, base, a, c, b);
    RotRotates(ctx, base, b, a, c);
  }
}
