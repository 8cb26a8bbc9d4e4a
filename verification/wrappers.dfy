/** Failure-compatible wrappers shared by the Lox modules and the two lists:
    `Option` stands for Rust's `Option`, `Result` for Rust's `Result`. */
module Wrappers {

  datatype Option<+T> = None | Some(value: T)

  datatype Result<+T, +E> = Ok(value: T) | Err(error: E)
}
