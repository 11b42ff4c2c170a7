/** Failure-compatible wrappers shared by all modules of the model. */
module Wrappers {

  /** A value that may be absent: a C# null reference or a missing dictionary entry. */
  datatype Option<+T> = None | Some(value: T)

  /** The outcome of an operation that may throw: Err carries the exception. */
  datatype Result<+R, +E> = Ok(value: R) | Err(error: E)
}
