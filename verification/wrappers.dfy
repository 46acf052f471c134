/**
 * A field that JavaScript leaves `null` until it is set: the previous brush
 * sample of a paint session, or a transfer function not yet attached.
 */
module Wrappers {

  datatype Option<+T> = None | Some(value: T) {

    /** The held value, falling back to `default` while the field is unset. */
    function GetOr(default: T): T {
      if Some? then value else default
    }
  }
}
