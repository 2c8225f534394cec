/** The usual Some/None wrapper, standing in for JavaScript's `null` results
    (`localStorage.getItem`, `FormData.get`) and for omitted optional arguments. */
module Wrappers {
  datatype Option<+T> = None | Some(value: T) {
    /** The wrapped value, or `default` when there is none. */
    function GetOr(default: T): (r: T)
      ensures Some? ==> r == value
      ensures None? ==> r == default
    {
      match this
      case Some(v) => v
      case None => default
    }
  }
}
