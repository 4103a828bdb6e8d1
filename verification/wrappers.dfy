/** The optional value used wherever the source returns `null`/`undefined`. */
module Wrappers {

  datatype Option<+T> = None | Some(value: T) {

    /** The wrapped value, or `default` when absent (JavaScript's `x ?? default`). */
    function GetOr(default: T): T {
      match this
      case Some(v) => v
      case None => default
    }
  }

  /** SQL `coalesce(newer, stored)`: the newer value unless it is null. */
  function Coalesce<T>(newer: Option<T>, stored: Option<T>): (r: Option<T>)
    ensures newer.Some? ==> r == newer
    ensures newer.None? ==> r == stored
  {
    if newer.Some? then newer else stored
  }
}
