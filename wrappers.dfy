/** Optional values, used where the modelled code reads `undefined` or `null`, or
    where a step throws. */
module Wrappers {

  datatype Option<+T> = None | Some(value: T) {
    function GetOr(default: T): T {
      match this
      case Some(v) => v
      case None => default
    }
  }
}
