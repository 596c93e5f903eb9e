/** The optional value used wherever the JavaScript source has `null` or `undefined`. */
module Options {

  datatype Option<+T> = None | Some(value: T) {

    /** `x ?? default`: the value, or the default when absent. */
    function GetOr(default: T): T {
      match this
      case Some(v) => v
      case None => default
    }
  }
}
