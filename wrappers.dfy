/** Null-like and exception-like results: `Option` stands for a nullable
    value (`T?`), `Result` for an operation that either returns or throws. */
module Wrappers {

  datatype Option<+T> = None | Some(value: T) {
    function GetOr(default: T): T {
      match this
      case Some(v) => v
      case None => default
    }

    /** The null-coalescing operator `this ?? other`. */
    function OrElse(other: Option<T>): Option<T> {
      if Some? then this else other
    }
  }

  datatype Result<+T, +E> = Success(value: T) | Failure(error: E)
}
