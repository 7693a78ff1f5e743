/** Optional values: `None` stands for a Python `None`, a missing dictionary key
    or an exception that the caller swallows. */
module Wrappers {

  datatype Option<+T> = None | Some(value: T) {

    /** The value, or `default` when there is none. */
    function GetOr(default: T): T {
      match this
      case Some(v) => v
      case None => default
    }
  }
}
