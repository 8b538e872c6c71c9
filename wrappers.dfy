/** Success/failure wrappers standing in for Python's `None` and raised exceptions. */
module Wrappers {

  datatype Option<+T> = None | Some(value: T)

  /** The value an operation returns, or the exception it raises. */
  datatype Result<+T, +E> = Ok(value: T) | Err(error: E)

  /** An operation that returns nothing useful, or raises. */
  datatype Outcome<+E> = Pass | Fail(error: E)
}
