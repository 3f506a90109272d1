/** Nullable values. JavaScript's `null` and `undefined` both become `None`. */
module Optional {

  datatype Option<+T> = None | Some(value: T) {

    /** `this ?? fallback`: only a missing value falls through, never a falsy one. */
    function OrElse(fallback: T): (r: T)
      ensures Some? ==> r == value
      ensures None? ==> r == fallback
    {
      match this
      case Some(v) => v
      case None => fallback
    }
  }
}
