/** Optional values and results carrying an error message: the shapes the
    adapters and the repository resolver hand back. */
module Wrappers {

  /** A value that may be absent (the source's `null` or `false` returns). */
  datatype Option<+T> = None | Some(value: T)

  /** The outcome of an operation that may raise; `Failure` carries the
      exception message. */
  datatype Result<+T> = Success(value: T) | Failure(error: string)
}
