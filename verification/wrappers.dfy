/** An optional value: the button's recognizers, delegate and timer are references that may be nil. */
module Wrappers {

  datatype Option<T> = None | Some(value: T) {

    /** The held value, or `fallback` when there is none */
    function OrElse(fallback: T): T {
      if Some? then value else fallback
    }
  }
}
