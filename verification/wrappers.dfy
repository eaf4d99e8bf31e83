/** Failure-carrying results used where the Python code raises an exception. */
module Wrappers {

  datatype Option<+T> = None | Some(value: T)

  /** `Ok` is a normal return; `Err` stands for the exception the source raises. */
  datatype Result<+T, +E> = Ok(value: T) | Err(error: E)
}
