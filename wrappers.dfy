/** Failure-carrying values shared by the modules of this model. */
module Wrappers {

  datatype Option<+T> = None | Some(value: T)

  /** `Result<T, E>` of Rust: a value or an error. */
  datatype Result<+T, +E> = Ok(value: T) | Err(error: E)

  /** `Result<(), E>` of Rust: success without a value, or an error. */
  datatype Outcome<+E> = Pass | Fail(error: E)
}
