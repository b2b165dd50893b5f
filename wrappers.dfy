/** Option and Result values shared by the models of both source files. */
module Wrappers {

  /** A value that may be absent: Rust's `Option`, Python's `Optional`. */
  datatype Option<+T> = None | Some(value: T)

  /** A value or an error: Rust's `Result`, or a Python call that may raise. */
  datatype Result<+T, +E> = Ok(value: T) | Err(error: E)
}
