/** Failure-carrying return values: the logger reports its one exception through these. */
module Results {

  datatype Option<+T> = None | Some(value: T)

  /** The outcome of an operation that either completes or throws `error`. */
  datatype Outcome<+E> = Pass | Fail(error: E)

  /** A value, or the exception thrown instead of producing it. */
  datatype Result<+T, +E> = Success(value: T) | Failure(error: E)
}
