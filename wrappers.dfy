/** Option and Result values: the configuration loader's error path, the integer parse and the controller's publish request. */
module Wrappers {

  datatype Option<+T> = None | Some(value: T)

  /** A failure-compatible result: `:-` propagates the first Failure. */
  datatype Result<+R, +E> = Success(value: R) | Failure(error: E) {

    predicate IsFailure() {
      Failure?
    }

    function PropagateFailure<U>(): Result<U, E>
      requires Failure?
    {
      Failure(error)
    }

    function Extract(): R
      requires Success?
    {
      value
    }
  }
}
