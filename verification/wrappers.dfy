/** Failure-compatible wrappers used for the error paths of the model. */
module Wrappers {

  /** A value that may be absent: an oracle answer that failed, a key not in a map. */
  datatype Option<+T> = None | Some(value: T)

  /** The outcome of an operation that can stop with an error. */
  datatype Result<+R, +E> = Success(value: R) | Failure(error: E)
}
