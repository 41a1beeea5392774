/** The nullable values of the calculator: a present number or nothing. */
module Options {

  /** `None` stands for Kotlin's `null`; `Some(v)` for a present value. */
  datatype Option<+T> = None | Some(value: T) {

    /** The present value, or `default` when absent (Kotlin's elvis operator `?:`). */
    function GetOr(default: T): (r: T)
      ensures Some? ==> r == value
      ensures None? ==> r == default
    {
      match this
      case Some(v) => v
      case None => default
    }
  }
}
