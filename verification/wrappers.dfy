/** The optional value used wherever the crawler works with something that may be
    absent: an HTML element that was not found, a regex that did not match, a
    row that is not in the table. */
module Wrappers {

  datatype Option<+T> = None | Some(value: T) {

    /** The value, or `default` when there is none (Python's `x if x else default`). */
    function GetOr(default: T): T {
      match this
      case Some(v) => v
      case None => default
    }
  }
}
