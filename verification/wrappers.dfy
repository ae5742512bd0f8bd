/** Failure-compatible result types shared by every module of the model. */
module Wrappers {

  /** A value that may be missing (Python's `None`). */
  datatype Option<+T> = None | Some(value: T)

  /** The outcome of an operation that can raise in the source. */
  datatype Result<+R, +E> = Success(value: R) | Failure(error: E)
}
