/**
  Failure-compatible wrappers. `Result` stands for a Python call that either
  returns a value or raises; `Option` for a value that may be absent.
 */
module Wrappers {

  datatype Option<+T> = None | Some(value: T)

  datatype Result<+T, +E> = Success(value: T) | Failure(error: E) {

    /** True if the computation raised */
    predicate IsFailure() {
      Failure?
    }

    /** Carries the error over to a result of another value type */
    function PropagateFailure<U>(): Result<U, E>
      requires Failure?
    {
      Failure(error)
    }

    /** The value of a successful computation */
    function Extract(): T
      requires Success?
    {
      value
    }
  }
}
