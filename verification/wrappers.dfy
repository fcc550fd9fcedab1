/** Failure-carrying results shared by every module of the model. */
module Wrappers {

  /** An optional value, the model of Rust's `Option`. */
  datatype Option<+T> = None | Some(value: T)

  /** A value or an error, the model of `Result<T, E>` and `anyhow::Result`. */
  datatype Result<+T, +E> = Ok(value: T) | Err(error: E)
}
