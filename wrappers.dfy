/** Option and Result values shared by the registry and the packet builder. */
module Wrappers {

  /** An optional value, as Rust's `Option<T>`. */
  datatype Option<+T> = None | Some(value: T)

  /** The outcome of a fallible operation, as Rust's `Result<T, E>`. */
  datatype Result<+T, +E> = Ok(value: T) | Err(error: E)
}
