/** An optional value, used for a store file that may not exist yet. */
module Wrappers {

  /** `None` stands for an absent value (here: a data file that does not exist). */
  datatype Option<+T> = None | Some(value: T) {

    /** The wrapped value, or `default` when there is none. */
    function GetOr(default: T): (r: T)
      ensures Some? ==> r == value
      ensures None? ==> r == default
    {
      match this
      case Some(v) => v
      case None => default
    }
  }
}
