/** Failure-compatible result types shared by every module of the model.
    Go reports failure through an `error` value whose text callers compare;
    the model keeps that text as a `string`. */
module Wrappers {

  /** An optional value: a Go pointer that may be nil, or a value that may be absent. */
  datatype Option<+T> = None | Some(value: T) {
    function GetOr(default: T): T {
      match this
      case Some(v) => v
      case None => default
    }
  }

  /** A Go `(T, error)` pair: either a value or the error's message. */
  datatype Result<+T> = Success(value: T) | Failure(error: string)

  /** A Go function that returns only an `error`: nil (Pass) or a message (Fail). */
  datatype Outcome = Pass | Fail(error: string)
}
