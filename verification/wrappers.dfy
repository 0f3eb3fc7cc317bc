/** Option and Result values, standing in for Rust's `Option<T>` and `Result<T, ()>`. */
module Wrappers {

  datatype Option<+T> = None | Some(value: T)

  /** A Rust `Result<T, ()>`: the error carries no payload. */
  datatype Result<+T> = Ok(value: T) | Err
}
