/** The optional value used across the model: `None` stands for JavaScript's
    `null`/`undefined`, or for a parse that threw. */
module Wrappers {

  datatype Option<+T> = None | Some(value: T) {

    /** The value if present, otherwise the given default. */
    function GetOr(default: T): T {
      match this
      case Some(v) => v
      case None => default
    }
  }
}
