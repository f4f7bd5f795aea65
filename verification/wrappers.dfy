/** Option, the value-or-nothing datatype the rest of the model uses for optional
    XML content. */
module Wrappers {

  datatype Option<+T> = None | Some(value: T) {

    /** Returns the value encapsulated in Some, or `default` if None */
    function GetOr(default: T): T {
      match this
      case Some(v) => v
      case None => default
    }
  }
}
