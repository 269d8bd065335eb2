/** The optional value the source expresses with `undefined` (an absent
    config key, a regex group that did not participate in the match). */
module Wrappers {

  datatype Option<+T> = None | Some(value: T) {

    /** The value, or `default` when absent: JavaScript's destructuring
        default (`const { x = d } = o`) and `o.x ?? d`. */
    function GetOr(default: T): T {
      match this
      case Some(v) => v
      case None => default
    }
  }
}
