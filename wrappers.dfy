/** Option and Result, the failure-carrying values used across the model. */
module Wrappers {

  datatype Option<+T> = None | Some(value: T)

  /** `Err` carries the source's error (or, for a Go panic, a `Panic` variant of
      the module's own error type). */
  datatype Result<+T, +E> = Ok(value: T) | Err(error: E)
}
