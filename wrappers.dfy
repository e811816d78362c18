/** Optional values and fallible results, standing for Rust's `Option` and `Result`. */
module Wrappers {

  /** An optional value (`Option<T>`). */
  datatype Option<+T> = None | Some(value: T)

  /** A value or an error (`Result<T, E>`). */
  datatype Result<+T, +E> = Ok(value: T) | Err(error: E)
}
