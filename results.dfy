/** Option and Result values shared by the codec, the server and the client. */
module Results {

  /** A value that may be absent, such as a user's connection. */
  datatype Option<T> = None | Some(value: T)

  /** The outcome of an operation that raises a Python exception in the modelled code. */
  datatype Result<T, E> = Ok(value: T) | Err(error: E)
}
