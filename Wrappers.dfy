/** Option and Result values for the absent cases and the raised exceptions of the scripts. */
module Wrappers {

  datatype Option<+T> = None | Some(value: T)

  /** An operation that either returns a value or raises (a Python exception). */
  datatype Result<+T> = Ok(value: T) | Err(message: string)
}
