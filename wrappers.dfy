/** The optional value used for the script's "may fail" library calls
    (float(), strptime, an HTTP request) and for its None-valued locals. */
module Wrappers {

  datatype Option<+T> = None | Some(value: T) {

    /** The encapsulated value, or `default` when there is none. */
    function GetOr(default: T): T {
      match this
      case Some(v) => v
      case None => default
    }
  }
}
