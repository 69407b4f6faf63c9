/** Java's Optional (and a nullable reference) as a value. */
module Wrappers {

  datatype Option<+T> = None | Some(value: T) {

    /** Optional.orElse */
    function GetOr(default: T): T {
      match this
      case Some(v) => v
      case None() => default
    }
  }
}
