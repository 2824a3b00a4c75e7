/** Java's nullable references and thrown exceptions, as values. */
module Wrappers {

  /** A value that may be absent: `None` stands for Java's `null` (or JavaScript's `null`/`undefined`). */
  datatype Option<+T> = None | Some(value: T) {

    /** The value, or `default` when absent. */
    function GetOr(default: T): T {
      match this
      case Some(v) => v
      case None => default
    }
  }

  /** Either a returned value or the exception that was thrown instead. */
  datatype Result<+R, +E> = Success(value: R) | Failure(error: E)
}
