/** Option and Result, used for the alignment queue's sentinel and for
    operations that raise in col.py. */
module Wrappers {

  /** `None` plays the role of Python's `None`. */
  datatype Option<+T> = None | Some(value: T)

  /** The value of an operation that either returns or raises. */
  datatype Result<+T, +E> = Success(value: T) | Failure(error: E)
}
