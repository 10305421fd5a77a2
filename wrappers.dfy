/** Option and Result, the error-carrying wrappers used by every day's model. */
module Wrappers {

  datatype Option<+T> = None | Some(value: T)

  /** A thrown `Error(message)` in the source becomes `Failure(message)`. */
  datatype Result<+T> = Success(value: T) | Failure(error: string)

  /**
   * JavaScript `+` on numbers where `None` stands for NaN (and for the
   * `undefined` a function returns when no branch matches): NaN is sticky.
   */
  function AddNumber(a: Option<int>, b: Option<int>): Option<int> {
    if a.Some? && b.Some? then Some(a.value + b.value) else None
  }
}
