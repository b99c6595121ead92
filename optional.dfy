/** A value that may be missing: a DOM lookup that found nothing, a storage key
    that is absent, a JavaScript `undefined`, or a number that came out as NaN. */
module Optional {

  datatype Option<T> = None | Some(value: T) {

    /** The value, or `default` when there is none. */
    function GetOr(default: T): T {
      match this
      case Some(v) => v
      case None => default
    }
  }
}
