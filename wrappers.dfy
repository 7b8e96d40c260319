/** Rust's `Option` and `Result`. */
module Wrappers {

  /** Rust's `Option<T>`. */
  datatype Option<+T> = None | Some(value: T)

  /** Rust's `Result<R, E>`. */
  datatype Result<+R, +E> = Ok(value: R) | Err(error: E)
}
