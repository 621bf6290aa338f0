/** Option and Result values shared by the rope and list modules. */
module Wrappers {

  /** An optional value: Rust's `Option<T>`. */
  datatype Option<+T> = None | Some(value: T)

  /** The outcome of a computation that may fail: `Ok` or an error value. */
  datatype Result<+T, +E> = Ok(value: T) | Err(error: E)
}
