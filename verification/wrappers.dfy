/** Small failure-carrying datatypes shared by the parsers. */
module Wrappers {

  /** An optional value: `None` where a conversion has nothing to return. */
  datatype Option<+T> = None | Some(value: T)

  /** The outcome of an operation that can fail: a value, or the reason it failed. */
  datatype Result<+T, +E> = Success(value: T) | Failure(error: E)
}
