/** The JavaScript `undefined` of an optional field or lookup, as a value. */
module Optional {

  datatype Option<+T> = None | Some(value: T) {

    /** The value held, or `default` when there is none (`x ?? default`). */
    function GetOr(default: T): T {
      match this
      case Some(v) => v
      case None => default
    }
  }
}
