/** Failure-carrying values used where the crawler's Python code either
    finds nothing (`None`) or raises (`Failure`). */
module Results {

  /** A value that may be absent. */
  datatype Option<+T> = None | Some(value: T)

  /** The outcome of an operation that either yields a value or fails with an error. */
  datatype Result<+T, +E> = Success(value: T) | Failure(error: E)
}
