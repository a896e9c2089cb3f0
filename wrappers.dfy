/** The optional-value type used for lookups that can miss and parsers that can fail. */
module Wrappers {

  datatype Option<+T> = None | Some(value: T) {

    /** Applies `f` to the value, if there is one. */
    function Map<U>(f: T -> U): (r: Option<U>)
      ensures r.Some? <==> this.Some?
      ensures r.Some? ==> r.value == f(value)
    {
      match this
      case None => None
      case Some(v) => Some(f(v))
    }
  }
}
