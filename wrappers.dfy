/** Failure-carrying result types shared by the other modules. */
module Wrappers {

  /** A value that may be absent: a lookup that found nothing is `None`. */
  datatype Option<+T> = None | Some(value: T)

  /** A value, or the reason it could not be computed. */
  datatype Result<+T, +E> = Success(value: T) | Failure(error: E)
}
