/** The optional value the service uses wherever the source returns a value or None. */
module Wrappers {

  /** `None` stands for Python's `None`: an absent note, an omitted field, an unset variable. */
  datatype Option<+T> = None | Some(value: T) {

    /** The carried value, or `default` when there is none. */
    function GetOr(default: T): (r: T)
      ensures Some? ==> r == value
      ensures None? ==> r == default
    {
      match this
      case Some(v) => v
      case None => default
    }
  }
}
