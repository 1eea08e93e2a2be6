/** The optional value used wherever the source has `undefined` or `null`. */
module Wrappers {

  datatype Option<+T> = None | Some(value: T) {

    /** The wrapped value, or `default` when there is none (JavaScript's `x || default` on a defined `x`). */
    function GetOr(default: T): T {
      match this
      case Some(v) => v
      case None => default
    }

    /** This value when it is defined, else `other`: how an object spread `{...other, ...this}`
        settles one field. */
    function Or(other: Option<T>): Option<T> {
      if Some? then this else other
    }
  }
}
