/** Failure-carrying results used for the exceptions the library raises. */
module Wrappers {

  datatype Option<+T> = None | Some(value: T)

  /** A value, or the error that the Python code raises instead of returning one. */
  datatype Result<+T, +E> = Success(value: T) | Failure(error: E) {
    predicate IsFailure() { Failure? }

    function PropagateFailure<U>(): Result<U, E>
      requires Failure?
    {
      Failure(error)
    }

    function Extract(): T
      requires Success?
    {
      value
    }
  }

  /** An operation that returns nothing on success, or the error it raises. */
  datatype Outcome<+E> = Pass | Fail(error: E)
}
