/** The optional-value and value-or-errors datatypes shared by the other modules. */
module Wrappers {

  /** An optional value: an input that may be absent, a lookup that may miss. */
  datatype Option<+T> = None | Some(value: T) {

    /** The value, or `default` when there is none. */
    function GetOr(default: T): T {
      match this
      case Some(v) => v
      case None => default
    }
  }

  /** Either a value or the errors that prevented it. */
  datatype Result<+R, +E> = Success(value: R) | Failure(error: E)
}
