/** Option and Result, the two failure-carrying shapes every other module uses. */
module Wrappers {

  datatype Option<+T> = None | Some(value: T)

  /** A computation that either returns a value or raises a Python exception `error`. */
  datatype Result<+T, +E> = Ok(value: T) | Err(error: E)
}
