/** The optional value and the success-or-error result used across the model. */
module Wrappers {

  /** A value that may be absent: C#'s `null` for reference types and `Nullable<T>`. */
  datatype Option<+T> = None | Some(value: T)

  /** The outcome of an operation that either yields a value or fails with a typed error. */
  datatype Result<+T, +E> = Ok(value: T) | Err(error: E)
}
