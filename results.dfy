/** Success/failure values for the error returns of the Go code. */
module Results {

  /** A value or an error (Go's `(T, error)` pair). */
  datatype Result<T, E> = Ok(value: T) | Err(error: E)

  /** A bare success or an error (Go's lone `error` return). */
  datatype Outcome<E> = Pass | Fail(error: E)
}
