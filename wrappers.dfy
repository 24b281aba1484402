/** The optional-value and result types shared by the modules of this model. */
module Wrappers {

  /** An optional value: Go's nil-able error or pointer result. */
  datatype Option<+T> = None | Some(value: T)

  /** A value or an error: Go's (T, error) return pair. */
  datatype Result<+T, +E> = Ok(value: T) | Err(error: E)
}
