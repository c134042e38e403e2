/** Failure-carrying results shared by the codec and the action store. */
module Common {

  datatype Option<+T> = None | Some(value: T)

  /** The value a Python function returns, or the error it raises. */
  datatype Result<+T, +E> = Ok(value: T) | Err(error: E)
}
