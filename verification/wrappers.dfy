/** Option and Result, the failure-compatible wrappers the rest of the model uses. */
module Wrappers {

  /** A value that may be absent: a cancelled prompt, a missing inspection. */
  datatype Option<+T> = None | Some(value: T)

  /** A normal completion with a value, or an exception the code throws. */
  datatype Result<+T, +E> = Ok(value: T) | Err(error: E)
}
