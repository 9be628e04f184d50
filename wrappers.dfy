/** The Option datatype used wherever the service works with a value that may be
    missing: a JSON key that is absent, a GitHub call that did not answer 200, a
    session cookie that did not decode. */
module Wrappers {

  datatype Option<+T> = None | Some(value: T) {

    /** Python's `d.get(key, default)`: the value when present, else the default. */
    function GetOr(default: T): T {
      match this
      case Some(v) => v
      case None => default
    }
  }
}
