// Option and Result shapes.
module Wrappers {

  /** A value that may be absent: JavaScript's `null` result of a lookup. */
  datatype Option<+T> = None | Some(value: T)

  /** A computation that either yields a value or throws with a message. */
  datatype Result<+T> = Success(value: T) | Failure(message: string)
}
