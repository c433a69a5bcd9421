/** Option and Result, the two failure-carrying wrappers the model uses. */
module Wrappers {

  /** A value that may be missing: a null cell of a table. */
  datatype Option<+T> = None | Some(value: T)

  /** The outcome of a step that can fail with an error. */
  datatype Result<+T, +E> = Ok(value: T) | Err(error: E)
}
