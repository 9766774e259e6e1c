/** The optional-value datatype used for "no error" / "this message" and for parse results. */
module Wrappers {

  datatype Option<+T> = None | Some(value: T) {

    /** Applies `f` to the wrapped value, if there is one. */
    function Map<U>(f: T -> U): (r: Option<U>)
      ensures r.Some? <==> Some?
      ensures Some? ==> r.value == f(value)
    {
      match this
      case Some(v) => Some(f(v))
      case None => None
    }
  }
}
