/** Results shared by every module. */
module Wrappers {

  datatype Option<+T> = None | Some(value: T)

  datatype Result<+T, +E> = Success(value: T) | Failure(error: E)

  /** A call that returns a value, returns an error, or brings the process down. */
  datatype Outcome<+T, +E> = Ok(value: T) | Err(error: E) | Panic
}
