/** Missing values and failures, as the notebook's NaN cells and raised exceptions. */
module Wrappers {

  /** A table cell or an HTML element that may be missing (NaN / `None` in the source). */
  datatype Option<+T> = None | Some(value: T) {

    /** Applies `f` to a present value; a missing value stays missing (how a pandas string
        operation treats a NaN cell). */
    function Map<U>(f: T -> U): (r: Option<U>)
      ensures r.Some? <==> Some?
      ensures r.Some? ==> r.value == f(value)
    {
      match this
      case Some(v) => Some(f(v))
      case None => None
    }
  }

  /** A computation that either produces a value or raises. */
  datatype Result<+T, +E> = Ok(value: T) | Err(error: E)
}
