/** Failure-carrying values used where the converter either panics or skips. */
module Results {

  /** A value that may be absent. */
  datatype Option<+T> = None | Some(value: T)

  /** Either a computed value or the reason the conversion stopped. */
  datatype Result<+R, +E> = Success(value: R) | Failure(error: E)
}
