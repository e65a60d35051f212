/** Optional values and results used across the chat hub model. */
module Wrappers {

  /** A value that may be absent: a missing database document, an unset
      map entry, a claim the credential did not carry. */
  datatype Option<+T> = None | Some(value: T) {

    /** The wrapped value, or `default` when there is none. */
    function GetOr(default: T): T {
      match this
      case Some(v) => v
      case None => default
    }
  }

  /** Either a value or the error an operation raised instead. */
  datatype Result<+R, +E> = Success(value: R) | Failure(error: E)
}
