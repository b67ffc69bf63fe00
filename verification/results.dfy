/** Failure-carrying datatypes shared by the store, the commands and the play session. */
module Results {

  /** A value that may be absent, as a command argument that was not typed. */
  datatype Option<T> = None | Some(value: T)

  /** The outcome of a store operation: a value, or the error the store throws. */
  datatype Result<T, E> = Ok(value: T) | Err(error: E)
}
