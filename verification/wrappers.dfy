/** Optional values: a missing JSON field, a failed lookup or parse. */
module Wrappers {

  /** A value that may be absent: a missing JSON field, a failed parse. */
  datatype Option<+T> = None | Some(value: T) {

    /** Returns the value, or `default` when there is none. */
    function GetOr(default: T): T {
      match this
      case Some(v) => v
      case None => default
    }
  }
}
