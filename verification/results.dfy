/** Failure-carrying return values: the model's stand-in for Java's null
    references and for exceptions that end an operation early. */
module Results {

  /** A value that may be absent (a Java reference that may be null). */
  datatype Option<+T> = None | Some(value: T)

  /** Either a computed value or the reason the computation was abandoned. */
  datatype Result<+T, +E> = Success(value: T) | Failure(error: E)
}
