/** Failure-carrying wrappers used across the model: `Option` stands for a
    JavaScript value that may be `undefined`/`null`, `Result` for a call that
    may throw, `Outcome` for a check that either passes or throws. */
module Wrappers {

  datatype Option<+T> = None | Some(value: T) {

    /** The value, or `default` when there is none. */
    function GetOr(default: T): T {
      match this
      case Some(v) => v
      case None => default
    }
  }

  datatype Result<+T, +E> = Success(value: T) | Failure(error: E)

  datatype Outcome<+E> = Pass | Fail(error: E)
}
