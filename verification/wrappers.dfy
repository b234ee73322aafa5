/** Optional values and results with a failure case, shared by every module
    of the model. `Result` is failure-compatible, so `:-` propagates a fault. */
module Wrappers {

  /** A value that may be absent (Python `None`, a missing JSON field). */
  datatype Option<+T> = None | Some(value: T)

  /** Either a value or the fault that aborted the computation. */
  datatype Result<+R, +E> = Success(value: R) | Failure(error: E) {

    predicate IsFailure() {
      Failure?
    }

    function PropagateFailure<U>(): Result<U, E>
      requires Failure?
    {
      Failure(error)
    }

    function Extract(): R
      requires Success?
    {
      value
    }
  }
}
