/** Optional values and error-carrying results shared by the token store and the refresh gate. */
module Common {

  /** A value that may be absent (Python's `None`, SQL's NULL). */
  datatype Option<+T> = None | Some(value: T)

  /** The outcome of an operation that may raise instead of returning. */
  datatype Result<+T, +E> = Ok(value: T) | Err(error: E)
}
