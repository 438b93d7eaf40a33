/** Failure-carrying values shared by the gallery model. */
module Results {

  /** A value that may be absent. */
  datatype Option<T> = None | Some(value: T)

  /** The outcome of an operation that can fail with a Go `error`, kept as its message text. */
  datatype Result<T> = Ok(value: T) | Err(message: string)
}
