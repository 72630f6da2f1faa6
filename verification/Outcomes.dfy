/** Results of operations that may throw.  A C++ exception is the value `Throw(e)`;
    `:-` propagates it as unwinding does. */
module Outcomes {

  datatype Option<+T> = None | Some(value: T)

  /** The exception classes the library throws.  `Undefined` stands for C++ behaviour
      that the language does not define (it is not an exception). */
  datatype Error =
    | Underflow      // underflow_error: read past the end of a section
    | Format         // format_error: malformed DWARF
    | TypeMismatch   // value_type_mismatch
    | OutOfRange     // out_of_range
    | Logic          // logic_error
    | Runtime        // runtime_error
    | TooLong        // length_error: a vector longer than the library can make
    | Expression     // expr_error
    | StackUnderflow // expr_error raised by the stack-depth checks
    | Undefined
    | Timeout        // not an exception: the step bound of the model ran out first

  datatype Outcome<+T> = Value(value: T) | Throw(error: Error) {
    predicate IsFailure() { Throw? }

    function PropagateFailure<U>(): Outcome<U>
      requires Throw?
    {
      Throw(error)
    }

    function Extract(): T
      requires Value?
    {
      value
    }
  }

  /** A list read so far, before what is still to be read. */
  function Prepend<T>(done: seq<T>, rest: Outcome<seq<T>>): Outcome<seq<T>> {
    match rest
    case Throw(e) => Throw(e)
    case Value(more) => Value(done + more)
  }

  lemma PrependNone<T>(rest: Outcome<seq<T>>)
    ensures Prepend([], rest) == rest
  {
    if rest.Value? {
      assert [] + rest.value == rest.value;
    }
  }

  lemma PrependMore<T>(a: seq<T>, b: seq<T>, rest: Outcome<seq<T>>)
    ensures Prepend(a + b, rest) == Prepend(a, Prepend(b, rest))
    ensures Prepend(a, Value([])) == Value(a)
  {
    assert a + [] == a;
    if rest.Value? {
      assert (a + b) + rest.value == a + (b + rest.value);
    }
  }

  /** The same for a list with the offset after it. */
  function PrependTo<T>(done: seq<T>, rest: Outcome<(seq<T>, nat)>): Outcome<(seq<T>, nat)> {
    match rest
    case Throw(e) => Throw(e)
    case Value((more, end)) => Value((done + more, end))
  }

  lemma PrependToNone<T>(rest: Outcome<(seq<T>, nat)>)
    ensures PrependTo([], rest) == rest
  {
    if rest.Value? {
      assert [] + rest.value.0 == rest.value.0;
    }
  }

  lemma PrependToMore<T>(a: seq<T>, b: seq<T>, rest: Outcome<(seq<T>, nat)>)
    ensures PrependTo(a + b, rest) == PrependTo(a, PrependTo(b, rest))
  {
    if rest.Value? {
      assert (a + b) + rest.value.0 == a + (b + rest.value.0);
    }
  }
}
