/** Option and Result, the two failure-carrying values the model needs. */
module Wrappers {

  /** A value that may be absent: `None` stands in for C#'s `null` or a failed `TryGetValue`. */
  datatype Option<+T> = None | Some(value: T)

  /** The outcome of an operation that either succeeds with a value or throws. */
  datatype Result<+R, +E> = Ok(value: R) | Err(error: E)
}
