/** The Option type shared by every module of the model. */
module Wrappers {

  /** An optional value: Python's `None` or JavaScript's `null`/`undefined` is `None`. */
  datatype Option<+T> = None | Some(value: T) {

    /** The encapsulated value, or `default` when there is none. */
    function GetOr(default: T): T {
      match this
      case Some(v) => v
      case None => default
    }
  }
}
