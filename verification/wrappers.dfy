/** The optional-value datatype the rest of the model uses for Python's
    `None` results and for operations that can raise. */
module Wrappers {

  datatype Option<T> = None | Some(value: T) {

    /** The carried value, or `fallback` when there is none. */
    function GetOr(fallback: T): (r: T)
      ensures Some? ==> r == value
      ensures None? ==> r == fallback
    {
      match this
      case Some(v) => v
      case None => fallback
    }
  }
}
