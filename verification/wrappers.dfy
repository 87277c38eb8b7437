/** Optional values: JavaScript's `null`/`undefined` against a present value. */
module Wrappers {

  datatype Option<+T> = None | Some(value: T) {

    /**
     * The value, or `default` when absent. This is JavaScript's `text || ''` for a string
     * that may be missing: the only other falsy string is `''`, which `||` also maps to `''`.
     */
    function GetOr(default: T): T {
      match this
      case Some(v) => v
      case None => default
    }
  }
}
