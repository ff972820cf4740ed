/** PHP's nullable values: a column or a request field that may be null or absent. */
module Wrappers {

  datatype Option<+T> = None | Some(value: T) {

    /** `$x ?? $default`. */
    function GetOr(default: T): T {
      match this
      case Some(v) => v
      case None => default
    }
  }
}
