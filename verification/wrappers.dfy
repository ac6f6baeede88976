/** Optional values, used for JavaScript's `undefined`-or-value results and for
    parsers that either succeed with a value or fail. */
module Wrappers {

  datatype Option<+T> = None | Some(value: T) {

    /** The wrapped value, or `default` when there is none. */
    function GetOr(default: T): T {
      match this
      case Some(v) => v
      case None => default
    }
  }
}
