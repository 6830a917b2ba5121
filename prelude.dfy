/** The two result shapes the source takes from Rust's standard library. */
module Prelude {

  /** Rust's `Option<T>`: a value that may be absent. */
  datatype Option<T> = None | Some(value: T)

  /** Rust's `Result<T, E>`: a success value or an error. */
  datatype Result<T, E> = Ok(value: T) | Err(error: E)
}
