/** Option: an optional value, for results that can be absent. */
module Wrappers {

  datatype Option<+T> = None | Some(value: T) {

    /** The value encapsulated in Some, or the given default. */
    function GetOr(default: T): T {
      match this
      case Some(v) => v
      case None => default
    }
  }
}
