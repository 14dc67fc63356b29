/** The `Result` of an operation that can fail with a recoverable error. */
module Wrappers {

  datatype Result<+T, +E> = Ok(value: T) | Err(error: E)
}
