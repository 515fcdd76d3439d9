/** Failure-carrying result types used by the decision engine in place of
    Java's checked and unchecked exceptions. */
module Results {

  /** A value that may be absent. */
  datatype Option<+T> = None | Some(value: T)

  /** Either a computed value or the failure that stopped the computation. */
  datatype Result<+T, +E> = Success(value: T) | Failure(error: E)

  /** The outcome of a step that returns nothing but may fail (a Java
      `void` method with a `throws` clause). */
  datatype Outcome<+E> = Pass | Fail(error: E)
}
