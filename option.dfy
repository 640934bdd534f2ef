/** The usual Some/None datatype, used where PHP returns `false` or leaves an entry unset. */
module Optional {

  datatype Option<+T> = None | Some(value: T) {

    /** The value in Some, or the given default when None. */
    function GetOr(default: T): (r: T)
      ensures Some? ==> r == value
      ensures None? ==> r == default
    {
      match this
      case Some(v) => v
      case None => default
    }
  }
}
