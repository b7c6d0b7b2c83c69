/** Option and Result, the two failure-carrying shapes the size analysis needs:
    an annotations length that may be absent, and a reader step that may fail. */
module Wrappers {

  /** A value that may be absent; `None` is distinct from `Some(0)`. */
  datatype Option<+T> = None | Some(value: T)

  /** The outcome of a fallible computation: a value, or the error that stopped it. */
  datatype Result<+R, +E> = Success(value: R) | Failure(error: E)
}
