/** The optional value used wherever the DOM or a regular expression may give
    back nothing (`querySelector` without a match, a missing attribute, a
    failed `match`). */
module Wrappers {

  datatype Option<+T> = None | Some(value: T) {

    /** The value, or `default` when there is none (the `?? default` idiom). */
    function GetOr(default: T): T {
      match this
      case Some(v) => v
      case None => default
    }
  }
}
