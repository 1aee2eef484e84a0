/** Failure-compatible result types used where the operator raises an exception. */
module Wrappers {

  datatype Option<+T> = None | Some(value: T)

  /** Either the value computed, or the message of the exception the operator throws. */
  datatype Result<+R, +E> = Success(value: R) | Failure(error: E) {
    predicate IsFailure() {
      Failure?
    }

    function PropagateFailure<U>(): Result<U, E>
      requires Failure?
    {
      Failure(error)
    }

    function Extract(): R
      requires Success?
    {
      value
    }
  }
}
