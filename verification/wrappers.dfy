/** Failure-compatible wrappers used throughout the model: an optional value
    (JavaScript's `undefined` / `null` where the program distinguishes them)
    and a value-or-error result (a thrown error carrying its message). */
module Wrappers {

  datatype Option<+T> = None | Some(value: T) {

    /** The value, or `default` when there is none. */
    function GetOr(default: T): T {
      match this
      case Some(v) => v
      case None => default
    }
  }

  datatype Result<+R, +E> = Success(value: R) | Failure(error: E)
}
