/** The optional value the model uses wherever the source works with a
    reference that may be null. */
module Wrappers {

  datatype Option<+T> = None | Some(value: T) {

    /** The held value, or `default` in place of a null */
    function GetOr(default: T): T {
      match this
      case Some(v) => v
      case None => default
    }
  }
}
