/** Option and Result, the two failure-carrying shapes the model needs
    (Rust's `Option<T>` and `anyhow::Result<T>`). */
module Optional {

  /** Rust's `Option<T>`. */
  datatype Option<+T> = None | Some(value: T)

  /** A success value or an error value. */
  datatype Result<+T, +E> = Ok(value: T) | Err(error: E)
}
