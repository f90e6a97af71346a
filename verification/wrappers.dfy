/** Option and Result, the two failure-carrying shapes the model uses for
    JavaScript's optional fields and for promises that resolve or reject. */
module Wrappers {

  /** An optional value: `undefined`/`null` is `None`. */
  datatype Option<+T> = None | Some(value: T)

  /** A settled promise: `Success` when it resolves, `Failure` when it rejects. */
  datatype Result<+R, +E> = Success(value: R) | Failure(error: E)
}
