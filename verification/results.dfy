/** Failure-carrying wrappers shared by the store and the route handlers. */
module Results {

  /** A value that may be absent: the result of looking a key up in a table. */
  datatype Option<+T> = None | Some(value: T)

  /** Either the handler's answer or the error it raises. */
  datatype Result<+T, +E> = Success(value: T) | Failure(error: E)
}
