/** Failure-carrying results: an operation whose JavaScript counterpart may
    throw returns a `Result` instead. */
module Wrappers {

  /** Either the value computed, or the error the JavaScript code throws. */
  datatype Result<+T, +E> = Success(value: T) | Failure(error: E) {

    /** Whether `:-` stops here and hands the error on. */
    predicate IsFailure() {
      Failure?
    }

    /** The same error, as the result of the enclosing operation. */
    function PropagateFailure<U>(): Result<U, E>
      requires Failure?
    {
      Failure(error)
    }

    /** What `:-` binds when the step succeeded. */
    function Extract(): T
      requires Success?
    {
      value
    }
  }
}
