/** Failure-compatible wrappers used across the model: a value that may be
    missing, and a computation that may throw. */
module Wrappers {

  datatype Option<+T> = None | Some(value: T)

  /** The outcome of JavaScript code that either returns a value or throws. */
  datatype Result<+T, +E> = Success(value: T) | Failure(error: E)

  /** Puts `xs` in front of the values of a successful `r`; a failure passes through
      unchanged (an exception thrown later discards what was pushed before it). */
  function Prepend<T, E>(xs: seq<T>, r: Result<seq<T>, E>): Result<seq<T>, E>
  {
    match r
    case Success(ys) => Success(xs + ys)
    case Failure(e) => Failure(e)
  }

  lemma PrependNil<T, E>(r: Result<seq<T>, E>)
    ensures Prepend([], r) == r
  {
    if r.Success? {
      assert [] + r.value == r.value;
    }
  }

  lemma PrependFailure<T, E>(xs: seq<T>, e: E)
    ensures Prepend(xs, Failure(e)) == Failure(e)
  {
  }

  lemma PrependPrepend<T, E>(xs: seq<T>, ys: seq<T>, r: Result<seq<T>, E>)
    ensures Prepend(xs, Prepend(ys, r)) == Prepend(xs + ys, r)
  {
    if r.Success? {
      assert xs + (ys + r.value) == (xs + ys) + r.value;
    }
  }
}
