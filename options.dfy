/** The optional value a rejected register read yields (JavaScript's `undefined`). */
module Options {

  datatype Option<+T> = None | Some(value: T) {

    /** The value, or `d` when there is none. */
    function GetOr(d: T): T {
      match this
      case Some(v) => v
      case None => d
    }
  }
}
