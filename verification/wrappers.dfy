/** The optional-value datatype used throughout the converter model: a
    failed file read, a missing XML attribute, a regex search that found
    nothing. */
module Wrappers {

  datatype Option<+T> = None | Some(value: T) {

    /** The wrapped value, or `default` when there is none. */
    function GetOr(default: T): T {
      match this
      case Some(v) => v
      case None => default
    }
  }
}
