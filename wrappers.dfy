/** Small failure-compatible wrapper shared by the other modules. */
module Wrappers {

  /** `None` stands for Go's nil (or "not found"); `Some(v)` for a present value. */
  datatype Option<+T> = None | Some(value: T) {
    function GetOr(default: T): T {
      match this
      case Some(v) => v
      case None => default
    }
  }
}
