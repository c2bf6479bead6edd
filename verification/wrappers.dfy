/** Failure-carrying values shared by the store model. */
module Wrappers {

  /** A value that may be absent: Rust's `Option`. */
  datatype Option<+T> = None | Some(value: T)

  /** The outcome of a fallible store operation whose error carries no payload
      (the store returns `Result<T, ()>`). */
  datatype Result<+T> = Ok(value: T) | Err
}
