/** Option and Result, the shapes Python's "value or absent" and
    "value or raised exception" take in this model. */
module Wrappers {

  datatype Option<+T> = None | Some(value: T)

  /** A computation that either returns a value or raises an exception
      whose text (Python's `str(e)`) is `error`. */
  datatype Result<+T> = Success(value: T) | Failure(error: string)
}
