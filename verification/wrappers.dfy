/** Optional values, standing in for JavaScript's `undefined`. */
module Wrappers {

  /** `None` is an absent (undefined) value. */
  datatype Option<+T> = None | Some(value: T) {

    /** The wrapped value, or `default` when absent (JavaScript's `x ?? default`). */
    function GetOr(default: T): T {
      match this
      case Some(v) => v
      case None => default
    }
  }
}
