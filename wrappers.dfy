/** Success/failure and optional values, as used by the driver's return types. */
module Wrappers {

  datatype Option<+T> = None | Some(value: T)

  /** The outcome of a fallible operation: `Ok` with a value or `Err` with an error. */
  datatype Result<+T, +E> = Ok(value: T) | Err(error: E)
}
