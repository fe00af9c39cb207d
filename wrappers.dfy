/** Optional values and results, standing for Java's null and for thrown exceptions. */
module Wrappers {

  /** A value that may be missing: `None` stands for Java's `null`. */
  datatype Option<+T> = None | Some(value: T)

  /** The outcome of an operation that can throw: `Failure` carries the exception's message. */
  datatype Result<+T> = Success(value: T) | Failure(error: string)
}
