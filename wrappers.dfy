/** Option and Result, used for nullable lookups and for the loader's KeyErrors. */
module Wrappers {

  datatype Option<+T> = None | Some(value: T)

  /** The value of a step that either succeeds or raises. */
  datatype Result<+T, +E> = Ok(value: T) | Err(error: E)
}
