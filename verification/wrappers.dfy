/** Option type standing in for the nullable references of the application. */
module Wrappers {

  /** `None` plays the part of a `null` reference or an absent value. */
  datatype Option<+T> = None | Some(value: T) {

    /** The wrapped value, or `default` when there is none. */
    function GetOr(default: T): T {
      match this
      case Some(v) => v
      case None => default
    }
  }
}
