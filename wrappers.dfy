/** Failure-compatible result types used in place of the exceptions the
    preparation script raises. */
module Wrappers {

  datatype Option<+T> = None | Some(value: T)

  /** A computation that either produced a value or stopped with an error,
      as a raised exception stops the script. */
  datatype Result<+T, +E> = Success(value: T) | Failure(error: E) {
    predicate IsFailure() {
      Failure?
    }

    function PropagateFailure<U>(): Result<U, E>
      requires Failure?
    {
      Failure(error)
    }

    function Extract(): T
      requires Success?
    {
      value
    }
  }

  /** A computation run for its effect that either completed or stopped with an error. */
  datatype Outcome<+E> = Pass | Fail(error: E)
}
