/** Failure-carrying datatypes shared by every part of the adapter model. */
module Wrappers {

  /** A value that may be absent, such as an optional JSON field. */
  datatype Option<+T> = None | Some(value: T)

  /** Either the value an operation produced or the error it returned. */
  datatype Result<+R, +E> = Success(value: R) | Failure(error: E) {
    predicate IsFailure() {
      Failure?
    }

    function PropagateFailure<U>(): Result<U, E>
      requires Failure?
    {
      Failure(error)
    }

    function Extract(): R
      requires Success?
    {
      value
    }
  }
}
