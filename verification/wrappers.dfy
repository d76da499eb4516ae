/** Optional values: the model's stand-in for pandas' missing values, for
    Python's `None`, and for a lookup that raises or finds nothing. */
module Wrappers {

  datatype Option<+T> = None | Some(value: T) {

    /** The value held, or `default` when there is none. */
    function GetOr(default: T): T {
      match this
      case Some(v) => v
      case None => default
    }
  }
}
