/** Failure-carrying values used where the Python code returns None or raises. */
module Wrappers {

  datatype Option<+T> = None | Some(value: T)

  /** `Ok(v)` for a normal return, `Err(e)` for a raised exception. */
  datatype Result<+T, +E> = Ok(value: T) | Err(error: E)
}
