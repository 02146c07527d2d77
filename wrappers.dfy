/** Optional values: `None` stands for a missing JavaScript value, that is an
    undefined `parentName` or the `null` that `getAttribute` gives for an
    absent attribute. */
module Wrappers {
  datatype Option<+T> = None | Some(value: T) {
    /** The value, or `default` when there is none (JavaScript's `??`). */
    function GetOr(default: T): (r: T) {
      match this
      case Some(v) => v
      case None => default
    }
  }
}
