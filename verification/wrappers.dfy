/** Optional values, used for every nullable field and every "not found" search result. */
module Wrappers {

  datatype Option<+T> = None | Some(value: T) {

    /** The wrapped value, or `default` when absent. */
    function GetOr(default: T): T {
      match this
      case Some(v) => v
      case None => default
    }
  }

  /** A write that may set a field or leave it as stored: the presence of a key in an ORM `vals` dictionary. */
  datatype Field<+T> = Keep | SetTo(value: T) {

    function Apply(stored: T): T {
      match this
      case Keep => stored
      case SetTo(v) => v
    }
  }
}
