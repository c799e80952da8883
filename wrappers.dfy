/** Optional values, standing in for the JavaScript `undefined` of a missing field. */
module Wrappers {
  datatype Option<+T> = None | Some(value: T) {
    /** The held value, or `default` when there is none. */
    function GetOr(default: T): T {
      match this
      case Some(v) => v
      case None => default
    }
  }
}
