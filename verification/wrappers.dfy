/** Option and Result, used for Python's `None`-free lookups and for the
    IndexError exits of the program. */
module Wrappers {

  datatype Option<+T> = None | Some(value: T)

  /** A failure-compatible result, so that `:-` can propagate an exception. */
  datatype Result<+T, +E> = Success(value: T) | Failure(error: E) {

    predicate IsFailure() {
      Failure?
    }

    function PropagateFailure<U>(): Result<U, E>
      requires Failure?
    {
      Failure(error)
    }

    function Extract(): T
      requires Success?
    {
      value
    }
  }
}
