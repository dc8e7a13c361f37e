/** Failure-carrying wrappers shared by the other modules. */
module Results {

  /** A value that may be missing: a JSON `null`, an absent key, a failed parse. */
  datatype Option<+T> = None | Some(value: T)

  /** The outcome of an operation that can raise: a value, or the error it raised. */
  datatype Result<+T, +E> = Ok(value: T) | Err(error: E)
}
