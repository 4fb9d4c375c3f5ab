/** Option and Result types used for the error paths of the model. */
module Wrappers {

  /** A value that may be absent (Python's None). */
  datatype Option<+T> = None | Some(value: T)

  /** The outcome of an operation that either succeeds or raises an error. */
  datatype Result<+R, +E> = Ok(value: R) | Err(error: E)
}
