/** Failure-carrying values used throughout the model. */
module Wrappers {

  datatype Option<+T> = None | Some(value: T)

  /** Either a value or an error; the model's stand-in for Rust's `Result`. */
  datatype Result<+T, +E> = Ok(value: T) | Err(error: E)
}
