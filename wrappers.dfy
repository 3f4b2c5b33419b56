/** The optional-value datatype used throughout the model. */
module Wrappers {

  datatype Option<+T> = None | Some(value: T) {
    /** The value, or `default` when there is none (PHP's `??`). */
    function UnwrapOr(default: T): T {
      if Some? then value else default
    }
  }
}
