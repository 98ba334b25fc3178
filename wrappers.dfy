/** The source's `null` / `undefined` results and optional fields. */
module Wrappers {

  datatype Option<+T> = None | Some(value: T) {

    /** `x || default` as the source writes it for an optional value. */
    function GetOr(default: T): T {
      match this
      case Some(v) => v
      case None => default
    }
  }
}
