/** The optional value used wherever the application has `undefined`, `null` or
    "no match": a `find` that fails, a nullable column, an absent list; and the
    outcome of a submit handler, which either completes or ends in its `catch`. */
module Wrappers {

  datatype Option<+T> = None | Some(value: T) {

    /** The value, or `default` when there is none (JavaScript's `x ?? default`). */
    function GetOr(default: T): T {
      match this
      case Some(v) => v
      case None => default
    }
  }

  /** What a handler with a `try`/`catch` produces: its result, or the error
      it reported. */
  datatype Result<+T, +E> = Success(value: T) | Failure(error: E)
}
