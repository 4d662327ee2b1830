/** The failure-carrying result of an operation that the source aborts with a panic. */
module Results {

  /** Either the computed value or the reason the computation had to stop. */
  datatype Result<+T, +E> = Success(value: T) | Failure(error: E)
}
