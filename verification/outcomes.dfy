/** Failure-carrying values shared by the gallery and the hotel models.
    A Python exception or a warning dialog becomes a `Failure`, a normal
    return becomes a `Success`. */
module Outcomes {

  /** A value that may be absent, such as a file that may not exist. */
  datatype Option<+T> = None | Some(value: T)

  /** The outcome of an operation that either completes with a value or
      stops with an error. */
  datatype Result<+T, +E> = Success(value: T) | Failure(error: E)
}
