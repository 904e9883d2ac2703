/** Small outcome types shared by every module of the model. */
module Wrappers {

  /** Rust's `Option<T>`. */
  datatype Option<T> = None | Some(value: T)

  /**
   * What running a Rust function that does not return a `Result` does: it
   * either returns a value or panics (an index or slice out of range).
   */
  datatype Run<T> = Returns(value: T) | Panics
}
