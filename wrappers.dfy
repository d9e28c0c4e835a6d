/** Failure-compatible result types shared by the model. */
module Wrappers {

  /** A value that may be absent; `None` also stands for JavaScript's NaN. */
  datatype Option<+T> = None | Some(value: T)

  /** The outcome of an operation that can be rejected with a reason. */
  datatype Result<+R, +E> = Success(value: R) | Failure(error: E)
}
