/** Option and Result, the two shapes the server's operations return:
    Option for a Python function that may fall off its end and return None,
    Result for one that may raise an exception instead of returning. */
module Wrappers {

  datatype Option<+T> = None | Some(value: T)

  /** Usable with `:-`: a `Failure` is passed on unchanged. */
  datatype Result<+R, +E> = Success(value: R) | Failure(error: E) {

    predicate IsFailure() {
      Failure?
    }

    function PropagateFailure<U>(): Result<U, E>
      requires Failure?
    {
      Failure(error)
    }

    function Extract(): R
      requires Success?
    {
      value
    }
  }
}
