/** The failure-compatible wrappers used throughout the model: `Option` stands
    for a JavaScript `null` (or a Java `null`) next to a present value. */
module Wrappers {

  datatype Option<+T> = None | Some(value: T) {

    /** The value, or `default` when there is none. */
    function GetOr(default: T): T {
      match this
      case Some(v) => v
      case None => default
    }
  }

  /** The outcome of a Java method that either returns normally or throws. */
  datatype Outcome<+E> = Pass | Fail(error: E)
}
