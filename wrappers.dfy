/** The optional value used wherever the installer may or may not have a value. */
module Wrappers {

  datatype Option<T> = None | Some(value: T) {

    /** The value held in `Some`, or the given default. */
    function GetOr(default: T): T {
      match this
      case Some(v) => v
      case None => default
    }
  }
}
