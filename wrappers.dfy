/** Option and Result: Python's `None` and raised exceptions, as values. */
module Wrappers {

  /** An optional value: `None` or `Some(value)`. */
  datatype Option<+T> = None | Some(value: T)

  /** The outcome of a call that may raise: `Ok(value)`, or `Err(error)`
      standing for the exception it raised. */
  datatype Result<+T, +E> = Ok(value: T) | Err(error: E)
}
