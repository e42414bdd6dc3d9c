/** An optional value: JavaScript's `null` (or a falsy value) on one side, a present value on the other. */
module Wrappers {
  datatype Option<+T> = None | Some(value: T) {
    function GetOr(default: T): T {
      match this
      case Some(v) => v
      case None => default
    }
  }
}
