/** Failure-carrying values shared by the registry, the agent and the formatter. */
module Wrappers {

  /** A value that may be absent: Ruby's `nil`, JavaScript's `null`. */
  datatype Option<+T> = None | Some(value: T)

  /** The outcome of an operation that either returns a value or raises an error. */
  datatype Result<+R, +E> = Success(value: R) | Failure(error: E)
}
