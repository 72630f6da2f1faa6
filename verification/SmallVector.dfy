/** The growable buffer under the expression evaluator: a few elements inline, more on the
    heap, capacity doubled as needed. */
module SmallVectors {
  import opened Outcomes

  /** A vector's inline capacity, its elements, its capacity, and how many elements growth has
      copied so far. */
  datatype Vec<T> = Vec(min: nat, items: seq<T>, cap: nat, copied: nat)

  /** The first capacity, doubling from `cap`, that is enough for n elements. */
  function Grow(cap: nat, n: nat): (c: nat)
    requires cap > 0
    ensures c >= cap
    decreases n - cap
  {
    if cap < n then Grow(2 * cap, n) else cap
  }

  /** The capacity after room for n elements has been reserved. */
  function Room(cap: nat, n: nat): nat {
    if n <= cap then cap else Grow(if cap == 0 then 1 else cap, n)
  }

  function Reserved<T>(v: Vec<T>, n: nat): Vec<T> {
    v.(cap := Room(v.cap, n), copied := v.copied + if n <= v.cap then 0 else |v.items|)
  }

  /** What a program can do to a vector.  `Copy` pushes and `Set` writes through revat, which
      counts from the back. */
  datatype Op<T> =
    | Push(x: T)
    | Copy(back: nat)
    | Pop
    | Reserve(n: nat)
    | Clear
    | Set(back: nat, x: T)
    | Assign(from: seq<T>)

  /** The elements fill a buffer on the heap, which growth would delete. */
  predicate HeapFull(min: nat, size: nat, cap: nat) {
    size == cap && cap > min
  }

  /** The source leaves popping an empty vector, or reaching before its first element,
      undefined; so is pushing an element of the vector itself when that deletes the buffer it
      is read from. */
  ghost predicate Allowed<T>(v: Vec<T>, op: Op<T>) {
    match op
    case Pop => v.items != []
    case Copy(back) => back < |v.items| && !HeapFull(v.min, |v.items|, v.cap)
    case Set(back, _) => back < |v.items|
    case _ => true
  }

  function Pushed<T>(v: Vec<T>, x: T): Vec<T> {
    var r := Reserved(v, |v.items| + 1);
    r.(items := r.items + [x])
  }

  function Apply<T>(v: Vec<T>, op: Op<T>): Vec<T>
    requires Allowed(v, op)
  {
    match op
    case Push(x) => Pushed(v, x)
    case Copy(back) => Pushed(v, v.items[|v.items| - 1 - back])
    case Pop => v.(items := v.items[..|v.items| - 1])
    case Reserve(n) => Reserved(v, n)
    case Clear => v.(items := [])
    case Set(back, x) => v.(items := v.items[|v.items| - 1 - back := x])
    case Assign(from) => Reserved(v.(items := []), |from|).(items := from)
  }

  class SmallVector<T(0)> {
    const min: nat
    const buf: array<T>
    var base: array<T>
    var len: nat
    ghost var copied: nat

    constructor (min: nat)
      ensures this.min == min && Valid() && View() == Vec(min, [], min, 0)
      ensures fresh(buf) && base == buf
    {
      this.min := min;
      var inline := new T[min];
      buf := inline;
      base := inline;
      len, copied := 0, 0;
    }

    /** Move from another vector: its inline elements are copied, its heap buffer is taken. */
    constructor Move(o: SmallVector<T>)
      requires o.Valid()
      modifies o
      ensures min == o.min && Valid() && o.Valid()
      ensures fresh(buf) && (base == buf || base == old(o.base))
      ensures View().items == old(o.View().items) && o.View().items == []
      ensures base != o.base && buf != o.base
      ensures old(o.base) != o.buf ==> View() == old(o.View()) && o.View() == Vec(o.min, [], o.min, 0)
    {
      min := o.min;
      var inline := new T[o.min];
      buf := inline;
      base := inline;
      len, copied := 0, 0;
      new;
      if o.base == o.buf {
        for i := 0 to o.len
          invariant base[..i] == o.base[..i]
          modifies base
        {
          base[i] := o.base[i];
        }
        len := o.len;
        o.len := 0;
      } else {
        base, len, copied := o.base, o.len, o.copied;
        o.base, o.len, o.copied := o.buf, 0, 0;
      }
    }

    /** Only a buffer on the heap has more room than the inline one, and growth has copied no
        more elements than it has added room for. */
    ghost predicate Valid()
      reads this
    {
      buf.Length == min && len <= base.Length && (base != buf ==> min < base.Length) &&
      (base == buf ==> copied == 0) && copied <= base.Length - min
    }

    ghost function View(): Vec<T>
      requires Valid()
      reads this, base
    {
      Vec(min, base[..len], base.Length, copied)
    }

    predicate Empty()
      reads this
    {
      len == 0
    }

    method ReserveRoom(n: nat)
      requires Valid()
      modifies this`base, this`copied
      ensures Valid() && (if n <= old(base.Length) then base == old(base) else fresh(base))
      ensures n <= base.Length && View() == Apply(old(View()), Reserve(n))
    {
      if n <= base.Length {
        return;
      }
      var target := base.Length;
      if target == 0 {
        target := 1;
      }
      ghost var first := target;
      while target < n
        invariant 0 < target && (target == first || 2 * first <= target)
        invariant Grow(target, n) == Grow(first, n)
        decreases n - target
      {
        target := target * 2;
      }
      var newbuf := new T[target];
      for i := 0 to len
        invariant newbuf[..i] == base[..i]
        modifies newbuf
      {
        newbuf[i] := base[i];
      }
      copied := copied + len;
      base := newbuf;
    }

    method PushBack(x: T)
      requires Valid()
      modifies this, base
      ensures Valid() && (base == old(base) || fresh(base))
      ensures View() == Apply(old(View()), Push(x))
    {
      ReserveRoom(len + 1);
      base[len] := x;
      len := len + 1;
    }

    /** `push_back(revat(n))`: the element is a reference into the vector, read only after room
        has been made for its copy. */
    method PushRevat(n: nat) returns (r: Outcome<()>)
      requires Valid() && n < len
      modifies this, base
      ensures Valid() && (base == old(base) || fresh(base))
      ensures r == if Allowed(old(View()), Copy(n)) then Value(()) else Throw(Undefined)
      ensures r.Value? ==> View() == Apply(old(View()), Copy(n))
    {
      var from, at := base, len - 1 - n;
      ReserveRoom(len + 1);
      if from != base && from != buf {
        return Throw(Undefined);  // reserving has deleted the buffer the element was in
      }
      base[len] := from[at];
      len := len + 1;
      return Value(());
    }

    method PopBack()
      requires Valid() && len > 0
      modifies this`len
      ensures Valid() && View() == Apply(old(View()), Pop)
    {
      len := len - 1;
    }

    method ClearAll()
      requires Valid()
      modifies this`len
      ensures Valid() && View() == Apply(old(View()), Clear)
    {
      len := 0;
    }

    /** The element n places before the last. */
    function Revat(n: nat): T
      requires Valid() && n < len
      reads this, base
      ensures Revat(n) == View().items[|View().items| - 1 - n]
    {
      base[len - 1 - n]
    }

    function Back(): T
      requires Valid() && len > 0
      reads this, base
    {
      Revat(0)
    }

    /** Assignment through the reference that revat returns. */
    method SetRevat(n: nat, x: T)
      requires Valid() && n < len
      modifies base
      ensures Valid() && View() == Apply(old(View()), Set(n, x))
    {
      base[len - 1 - n] := x;
    }

    /** `*this = o`, also when o is this vector itself. */
    method AssignFrom(o: SmallVector<T>)
      requires Valid() && o.Valid() && (o == this || o.base != base)
      modifies this, base
      ensures Valid() && (base == old(base) || fresh(base))
      ensures View() == Apply(old(View()), Assign(old(o.View().items)))
      ensures o != this ==> o.View() == old(o.View())
    {
      var osize := o.len;
      ClearAll();
      ReserveRoom(osize);
      for i := 0 to osize
        invariant base[..i] == old(o.base[..o.len])[..i]
        invariant o != this ==> o.base[..o.len] == old(o.base[..o.len])
        invariant o == this ==> base[..osize] == old(o.base[..o.len])
        modifies base
      {
        base[i] := o.base[i];
      }
      len := osize;
    }
  }

  // Whatever is done to a vector.

  ghost predicate AllAllowed<T>(v: Vec<T>, ops: seq<Op<T>>)
    decreases |ops|
  {
    ops == [] || (Allowed(v, ops[0]) && AllAllowed(Apply(v, ops[0]), ops[1..]))
  }

  ghost function ApplyAll<T>(v: Vec<T>, ops: seq<Op<T>>): Vec<T>
    requires AllAllowed(v, ops)
    decreases |ops|
  {
    if ops == [] then v else ApplyAll(Apply(v, ops[0]), ops[1..])
  }

  /** The same operations on a plain sequence. */
  ghost function OnSequence<T>(items: seq<T>, ops: seq<Op<T>>): seq<T>
    decreases |ops|
  {
    if ops == [] then items
    else
      var next :=
        match ops[0]
        case Push(x) => items + [x]
        case Copy(back) => if back < |items| then items + [items[|items| - 1 - back]] else items
        case Pop => if items == [] then [] else items[..|items| - 1]
        case Reserve(_) => items
        case Clear => []
        case Set(back, x) => if back < |items| then items[|items| - 1 - back := x] else items
        case Assign(from) => from;
      OnSequence(next, ops[1..])
  }

  /** A vector is a sequence: capacity and growth never show in its elements. */
  lemma {:induction false} RunIsPlain<T>(v: Vec<T>, ops: seq<Op<T>>)
    requires AllAllowed(v, ops)
    ensures ApplyAll(v, ops).items == OnSequence(v.items, ops)
    decreases |ops|
  {
    if ops != [] {
      RunIsPlain(Apply(v, ops[0]), ops[1..]);
    }
  }

  /** Doubling stops at once when there is room, and below twice what was asked for. */
  lemma {:induction false} GrowBound(cap: nat, n: nat)
    requires cap > 0
    ensures n <= Grow(cap, n) && cap <= Grow(cap, n)
    ensures cap < n ==> 2 * cap <= Grow(cap, n) < 2 * n
    ensures cap >= n ==> Grow(cap, n) == cap
    decreases n - cap
  {
    if cap < n {
      GrowBound(2 * cap, n);
    }
  }

  /** Room reserved twice is room reserved once for the greater number. */
  lemma {:induction false} GrowTwice(cap: nat, a: nat, b: nat)
    requires cap > 0
    ensures Grow(Grow(cap, a), b) == Grow(cap, if a > b then a else b)
    decreases a - cap
  {
    if cap < a {
      GrowTwice(2 * cap, a, b);
    }
  }

  lemma RoomTwice(min: nat, a: nat, b: nat)
    requires min > 0
    ensures Room(Room(min, a), b) == Room(min, if a > b then a else b)
    ensures a <= Room(min, a) && min <= Room(min, a)
  {
    GrowBound(min, a);
    GrowBound(Room(min, a), b);
    GrowBound(min, if a > b then a else b);
    GrowTwice(min, a, b);
  }

  ghost predicate Within<T>(v: Vec<T>) {
    |v.items| <= v.cap && v.min <= v.cap && v.copied <= v.cap - v.min
  }

  lemma ReservedWithin<T>(v: Vec<T>, n: nat)
    requires Within(v)
    ensures Within(Reserved(v, n)) && Reserved(v, n).min == v.min && n <= Reserved(v, n).cap
    ensures Reserved(v, n).cap == v.cap || Reserved(v, n).cap < 2 * n
  {
    if n > v.cap {
      GrowBound(if v.cap == 0 then 1 else v.cap, n);
    }
  }

  lemma ApplyWithin<T>(v: Vec<T>, op: Op<T>)
    requires Within(v) && Allowed(v, op)
    ensures Within(Apply(v, op)) && Apply(v, op).min == v.min
  {
    hide Reserved;
    match op
    case Push(_) | Copy(_) => ReservedWithin(v, |v.items| + 1); ReservedItems(v, |v.items| + 1);
    case Reserve(n) => ReservedWithin(v, n);
    case Assign(from) => ReservedWithin(v.(items := []), |from|);
    case _ =>
  }

  lemma ReservedItems<T>(v: Vec<T>, n: nat)
    ensures Reserved(v, n).items == v.items
  {
  }

  /** All the elements ever copied by growth fit in the room that growth added. */
  lemma {:induction false} CopiedWithin<T>(v: Vec<T>, ops: seq<Op<T>>)
    requires Within(v) && AllAllowed(v, ops)
    ensures Within(ApplyAll(v, ops)) && ApplyAll(v, ops).min == v.min
    decreases |ops|
  {
    hide Apply, Within, Allowed;
    if ops != [] {
      ApplyWithin(v, ops[0]);
      CopiedWithin(Apply(v, ops[0]), ops[1..]);
    }
  }

  predicate Pushing<T>(op: Op<T>) {
    op.Push? || op.Copy?
  }

  /** Pushes among the operations. */
  ghost function Pushes<T>(ops: seq<Op<T>>): nat {
    if ops == [] then 0 else (if Pushing(ops[0]) then 1 else 0) + Pushes(ops[1..])
  }

  /** No operation asks for room ahead of the pushes. */
  ghost predicate Unreserved<T>(ops: seq<Op<T>>) {
    forall i :: 0 <= i < |ops| ==> !ops[i].Reserve? && !ops[i].Assign?
  }

  ghost predicate Paced<T>(v: Vec<T>, k: nat) {
    Within(v) && |v.items| <= k && (v.cap == v.min || v.cap < 2 * k)
  }

  lemma ApplyPaced<T>(v: Vec<T>, op: Op<T>, k: nat)
    requires Paced(v, k) && Allowed(v, op) && !op.Reserve? && !op.Assign?
    ensures Paced(Apply(v, op), if Pushing(op) then k + 1 else k)
  {
    hide Reserved;
    ApplyWithin(v, op);
    ReservedWithin(v, |v.items| + 1);
    ReservedItems(v, |v.items| + 1);
  }

  lemma {:induction false} RunPaced<T>(v: Vec<T>, ops: seq<Op<T>>, k: nat)
    requires Paced(v, k) && AllAllowed(v, ops) && Unreserved(ops)
    ensures Paced(ApplyAll(v, ops), k + Pushes(ops))
    decreases |ops|
  {
    hide Apply, Paced, Allowed;
    if ops != [] {
      ApplyPaced(v, ops[0], k);
      RunPaced(Apply(v, ops[0]), ops[1..], if Pushing(ops[0]) then k + 1 else k);
    }
  }

  /** k pushes from empty, whatever is popped between them, copy fewer than 2k elements. */
  lemma PushesAreCheap<T>(min: nat, ops: seq<Op<T>>)
    requires AllAllowed(Vec(min, [], min, 0), ops) && Unreserved(ops)
    ensures var copied, k := ApplyAll(Vec(min, [], min, 0), ops).copied, Pushes(ops);
            copied == 0 || copied < 2 * k
  {
    RunPaced(Vec(min, [], min, 0), ops, 0);
  }
}
