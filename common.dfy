/** Failure-carrying results shared by every module of the model. */
module Common {

  /** A value that may be absent, as Python's `None`. */
  datatype Option<+T> = None | Some(value: T)

  /** A computation that either yields a value or raises the named error. */
  datatype Result<+T, +E> = Ok(value: T) | Err(error: E)
}
