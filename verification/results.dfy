/** Optional values and operation outcomes used by the facade model: an
    optional value (Python's `Optional[...]` / `None`) and the outcome of an
    operation that may raise. */
module Results {

  /** A value that may be absent, as a Python argument defaulting to `None`. */
  datatype Option<+T> = None | Some(value: T)

  /** Either the value an operation returns or the error it raises. */
  datatype Result<+R, +E> = Success(value: R) | Failure(error: E)
}
