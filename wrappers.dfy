/** Option and Result types used for the Rust `Option<T>` and `Result<T, E>`
    results throughout the model. */
module Wrappers {
  datatype Option<+T> = None | Some(value: T)

  datatype Result<+T, +E> = Ok(value: T) | Err(error: E)
}
