/** Optional and fallible values, standing in for pandas nulls and Python exceptions. */
module Wrappers {

  /** A value that may be absent (a null cell, a `None` return). */
  datatype Option<+T> = None | Some(value: T)

  /** A value or the error that stopped its computation. */
  datatype Result<+R, +E> = Ok(value: R) | Err(error: E)
}
