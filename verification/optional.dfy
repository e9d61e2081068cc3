/** The nullable values of the modelled program (`null`/`undefined` in the
    host's objects) are represented by this Some/None datatype. */
module Optional {

  datatype Option<+T> = None | Some(value: T) {

    /** The encapsulated value, or `default` when there is none: the `??`
        operator. It also stands for `||` applied to a stored record, since
        an object is always truthy and `||` then falls back only on a
        missing value. */
    function GetOr(default: T): (r: T)
      ensures Some? ==> r == value
      ensures None? ==> r == default
    {
      match this
      case Some(v) => v
      case None => default
    }
  }
}
