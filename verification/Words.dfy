/** Machine words as bounded integers, and the bit operations on them. */
module Words {

  const B32: int := 0x1_0000_0000
  const B63: int := 0x8000_0000_0000_0000
  const B64: int := 0x1_0000_0000_0000_0000

  type byte = x: int | 0 <= x < 256
  type u32 = x: int | 0 <= x < 0x1_0000_0000
  type u64 = x: int | 0 <= x < 0x1_0000_0000_0000_0000

  function Pow2(n: nat): (p: nat)
    ensures p > 0
  {
    if n == 0 then 1 else 2 * Pow2(n - 1)
  }

  /** The signed reading of an n-bit word in two's complement. */
  function Signed(n: nat, x: int): int
    requires n > 0
  {
    if x < Pow2(n - 1) then x else x - Pow2(n)
  }

  /** int64_t held in a uint64_t. */
  function Signed64(x: u64): int {
    if x < B63 then x else x - B64
  }

  function Max(a: nat, b: nat): nat {
    if a < b then b else a
  }

  /** Conversion to uint64_t: reduction modulo 2^64. */
  function Wrap64(i: int): u64 {
    i % B64
  }

  function Wrap32(i: int): u32 {
    i % B32
  }

  function AsByte(v: u64): byte {
    v % 256
  }

  /** `x << n` on a uint64_t; bits moved past position 63 are lost. */
  function Shl64(x: nat, n: nat): u64 {
    (x * Pow2(n)) % B64
  }

  datatype BitOp = And | Or | Xor {
    predicate Apply(a: bool, b: bool) {
      match this
      case And => a && b
      case Or => a || b
      case Xor => a != b
    }
  }

  predicate Bit(x: nat, i: nat) {
    if i == 0 then x % 2 == 1 else Bit(x / 2, i - 1)
  }

  /** `a op b`, bit by bit. */
  function Bits(op: BitOp, a: nat, b: nat): nat
    decreases a + b
  {
    if a == 0 && b == 0 then 0
    else 2 * Bits(op, a / 2, b / 2) + if op.Apply(a % 2 == 1, b % 2 == 1) then 1 else 0
  }

  lemma BitsHalf(op: BitOp, a: nat, b: nat)
    ensures Bits(op, a, b) / 2 == Bits(op, a / 2, b / 2)
    ensures Bits(op, a, b) % 2 == 1 <==> op.Apply(a % 2 == 1, b % 2 == 1)
  {
  }

  lemma {:induction false} BitsAt(op: BitOp, a: nat, b: nat, i: nat)
    ensures Bit(Bits(op, a, b), i) == op.Apply(Bit(a, i), Bit(b, i))
    decreases i
  {
    BitsHalf(op, a, b);
    if i > 0 {
      BitsAt(op, a / 2, b / 2, i - 1);
    }
  }

  lemma {:induction false} BitsBound(op: BitOp, a: nat, b: nat, n: nat)
    requires a < Pow2(n) && b < Pow2(n)
    ensures Bits(op, a, b) < Pow2(n)
    decreases n
  {
    if n > 0 {
      BitsBound(op, a / 2, b / 2, n - 1);
    }
  }

  lemma BitsBound64(op: BitOp, a: u64, b: u64)
    ensures Bits(op, a, b) < B64
  {
    Pow2Of64();
    BitsBound(op, a, b, 64);
  }

  lemma {:induction false} OrZero(a: nat)
    ensures Bits(Or, a, 0) == a && Bits(Or, 0, a) == a
  {
    if a > 0 {
      OrZero(a / 2);
    }
  }

  /** Or-ing in bits above the ones already set is addition. */
  lemma {:induction false} OrIsAdd(a: nat, b: nat, k: nat)
    requires a < Pow2(k)
    ensures Bits(Or, a, b * Pow2(k)) == a + b * Pow2(k)
    ensures Bits(Or, b * Pow2(k), a) == a + b * Pow2(k)
    decreases k
  {
    if k == 0 {
      assert b * Pow2(0) == b;
      OrZero(b);
    } else {
      var c := b * Pow2(k - 1);
      assert b * Pow2(k) == 2 * c;
      OrIsAdd(a / 2, b, k - 1);
    }
  }

  lemma {:induction false} Pow2Add(m: nat, n: nat)
    ensures Pow2(m + n) == Pow2(m) * Pow2(n)
    decreases m
  {
    if m > 0 {
      Pow2Add(m - 1, n);
      assert Pow2(m) * Pow2(n) == 2 * (Pow2(m - 1) * Pow2(n));
    }
  }

  lemma Pow2Mono(m: nat, n: nat)
    requires m <= n
    ensures Pow2(m) <= Pow2(n)
  {
    Pow2Add(m, n - m);
    MulMono(1, Pow2(n - m), Pow2(m));
  }

  lemma MulMono(a: int, b: int, c: int)
    requires a <= b && 0 <= c
    ensures a * c <= b * c
  {
  }

  lemma DivModUnique(x: int, m: int, q: int, r: int)
    requires 0 <= r < m && x == q * m + r
    ensures x / m == q && x % m == r
  {
    var q', r' := x / m, x % m;
    assert (q - q') * m == r' - r;
    if q > q' {
      MulMono(1, q - q', m);
    } else if q < q' {
      MulMono(q - q', -1, m);
    }
  }

  lemma ModShift(x: int, k: int, m: int)
    requires m > 0
    ensures (x + k * m) % m == x % m
  {
    assert x + k * m == (x / m + k) * m + x % m;
    DivModUnique(x + k * m, m, x / m + k, x % m);
  }

  lemma ModSplit(x: int, m: int)
    requires m > 0
    ensures x % m + (x / m) * m == x
  {
  }

  lemma ModAddLeft(x: int, y: int, m: int)
    requires m > 0
    ensures (x % m + y) % m == (x + y) % m
  {
    ModSplit(x, m);
    ModShift(x % m + y, x / m, m);
  }

  lemma ModSub(x: int, y: int, m: int)
    requires m > 0
    ensures (x - y % m) % m == (x - y) % m
  {
    ModSplit(y, m);
    ModShift(x - y, y / m, m);
  }

  lemma ModAdd(x: int, y: int, m: int)
    requires m > 0
    ensures (x % m + y) % m == (x + y) % m
    ensures (x + y % m) % m == (x + y) % m
    ensures (x - y % m) % m == (x - y) % m
  {
    ModAddLeft(x, y, m);
    ModAddLeft(y, x, m);
    ModSub(x, y, m);
  }

  lemma ModAddTwice(x: int, a: int, b: int, m: int)
    requires m > 0
    ensures ((x + a % m) % m + b % m) % m == (x + (a + b) % m) % m
  {
    ModAdd(x + a % m, b % m, m);
    ModAdd(x + a % m, b, m);
    ModAdd(x + b, a, m);
    ModAdd(x, a + b, m);
  }

  lemma Distribute(k: int, p: int, q: int)
    ensures k * (p + q) == k * p + k * q
  {
  }

  lemma ModMul(x: int, y: int, m: int)
    requires m > 0
    ensures ((x % m) * (y % m)) % m == (x * y) % m
  {
    ModMulLeft(x, y, m);
    ModMulLeft(y, x % m, m);
    Commute(y % m, x % m);
    Commute(y, x % m);
  }

  lemma QuotientBound(x: nat, m: nat)
    requires m > 0
    ensures 0 <= x / m <= x
  {
    if x / m > x {
      MulMono(1, m, x / m);
    }
  }

  lemma Commute(x: int, y: int)
    ensures x * y == y * x
  {
  }

  lemma ModMulLeft(x: int, y: int, m: int)
    requires m > 0
    ensures ((x % m) * y) % m == (x * y) % m
  {
    var q, a := x / m, x % m;
    ModSplit(x, m);
    Expand(q, m, a, y);
    ModShift(a * y, q * y, m);
  }

  lemma Expand(q: int, m: int, a: int, y: int)
    ensures (a + q * m) * y == a * y + (q * y) * m
  {
  }

  lemma ModScale(x: int, h: int, p: int)
    requires h > 0 && p > 0
    ensures 0 < h * p
    ensures (x * p) % (h * p) == (x % h) * p
    ensures 0 <= (x % h) * p <= h * p - p
  {
    var q, y := x / h, x % h;
    MulMono(1, h, p);
    MulMono(0, y, p);
    MulMono(y, h - 1, p);
    OneLess(h, p);
    ModSplit(x, h);
    ExpandOut(q, h, y, p);
    DivModUnique(x * p, h * p, q, y * p);
  }

  lemma OneLess(h: int, p: int)
    ensures (h - 1) * p == h * p - p
  {
  }

  lemma ExpandOut(q: int, h: int, y: int, p: int)
    ensures (y + q * h) * p == q * (h * p) + y * p
  {
  }

  lemma Pow2Of64()
    ensures Pow2(7) == 128 && Pow2(8) == 256 && Pow2(16) == 0x1_0000 && Pow2(32) == B32
    ensures Pow2(63) == B63 && Pow2(64) == B64
  {
    assert Pow2(4) == 16;
    Pow2Add(4, 4);
    assert Pow2(8) == 2 * Pow2(7);
    Pow2Add(8, 8);
    Pow2Add(16, 16);
    Pow2Add(32, 32);
    assert Pow2(64) == 2 * Pow2(63);
  }

  lemma SmallMod(x: int, m: int)
    requires 0 <= x < m
    ensures x % m == x
  {
  }

  lemma WrapSmall(c: u32)
    ensures Wrap32(c) == c
  {
  }

  /** A word below 2^k with shifted-in high bits, when the shift may drop bits past 63. */
  lemma OrShifted(a: u64, x: nat, k: nat)
    requires k < 64 && a < Pow2(k)
    ensures Bits(Or, a, Shl64(x, k)) == (a + x * Pow2(k)) % B64
  {
    Pow2Of64();
    Pow2Add(64 - k, k);
    var h, p := Pow2(64 - k), Pow2(k);
    ModScale(x, h, p);
    assert Shl64(x, k) == (x % h) * p;
    OrIsAdd(a, x % h, k);
    ModAdd(a, x * p, B64);
    SmallMod(a + (x % h) * p, B64);
  }

  lemma MulAssoc(x: int, y: int, z: int)
    ensures x * (y * z) == (x * y) * z
  {
  }

  lemma ModOfMultiple(x: int, q: int, m: int)
    requires m > 0
    ensures (x * (q * m)) % m == 0
  {
    MulAssoc(x, q, m);
    DivModUnique(x * (q * m), m, x * q, 0);
  }

  lemma ShlPast(x: nat, k: nat)
    requires k >= 64
    ensures Shl64(x, k) == 0
    ensures (x * Pow2(k)) % B64 == 0
  {
    Pow2Of64();
    Pow2Add(k - 64, 64);
    ModOfMultiple(x, Pow2(k - 64), Pow2(64));
  }

  /** A bit is a digit of the binary number. */
  lemma {:induction false} BitIs(x: nat, i: nat)
    ensures Bit(x, i) <==> (x / Pow2(i)) % 2 == 1
    decreases i
  {
    if i == 0 {
      assert Pow2(0) == 1;
    } else {
      BitIs(x / 2, i - 1);
      DivideTwice(x, 2, Pow2(i - 1));
    }
  }

  lemma DivideTwice(x: nat, a: nat, b: nat)
    requires a > 0 && b > 0
    ensures a * b > 0 && x / a / b == x / (a * b)
  {
    var q, r := x / a, x % a;
    ModSplit(x, a);
    ModSplit(q, b);
    MulMono(1, a, b);
    MulMono(0, q % b, a);
    MulMono(q % b, b - 1, a);
    assert x == (q / b) * (a * b) + ((q % b) * a + r) by {
      Regroup(q / b, q % b, a, b, r);
    }
    assert (b - 1) * a + a == a * b by { Distribute(a, b - 1, 1); }
    DivModUnique(x, a * b, q / b, (q % b) * a + r);
  }

  lemma Regroup(p: int, t: int, a: int, b: int, r: int)
    ensures (p * b + t) * a + r == p * (a * b) + (t * a + r)
  {
    assert (p * b + t) * a == (p * b) * a + t * a;
    assert (p * b) * a == p * (a * b);
  }
}
