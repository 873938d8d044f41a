/** An optional value: `None` in `script.py`, or a value. */
module Wrappers {

  datatype Option<+T> = None | Some(value: T) {

    /** `x if x is not None else default`; for strings also `x or default` when `x` is never "". */
    function GetOr(default: T): T {
      match this
      case Some(v) => v
      case None => default
    }
  }
}
