/** Optional values and fallible results, used where the Python returns None or raises. */
module Wrappers {

  datatype Option<+T> = None | Some(value: T)

  /** The outcome of a call into a library that may raise: the value, or the exception's message. */
  datatype Result<+T> = Success(value: T) | Failure(error: string)
}
