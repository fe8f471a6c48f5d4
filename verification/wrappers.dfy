/** Failure-compatible wrappers used for the dictionary's out-parameters and exceptions. */
module Wrappers {

  /** A possibly absent value: `None` stands for C#'s `null` or for "not found". */
  datatype Option<+T> = None | Some(value: T)

  /** The outcome of an operation that either succeeds or throws one of the errors `E`. */
  datatype Result<+T, +E> = Ok(value: T) | Err(error: E)
}
