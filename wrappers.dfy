/** Option and Result types shared by every stage of the pipeline. */
module Wrappers {

  /** A value that may be absent (a regex that found nothing, a missing field). */
  datatype Option<+T> = None | Some(value: T)

  /** The outcome of a stage that either yields a value or raises an error. */
  datatype Result<+T, +E> = Success(value: T) | Failure(error: E)
}
