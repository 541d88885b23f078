/** Carriers for the services' tagged success/failure responses. */
module Results {

  /** A value that may be missing (a nullable column or a `FirstOrDefault` miss). */
  datatype Option<+T> = None | Some(value: T)

  /** A response that carries a payload on success and an error otherwise. */
  datatype Result<+T, +E> = Success(value: T) | Failure(error: E)

  /** A response that carries no payload on success. */
  datatype Outcome<+E> = Pass | Fail(error: E)
}
