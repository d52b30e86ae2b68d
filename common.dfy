/** Small value types shared by the game models. */
module Common {

  /** A value that may be absent; stands for JavaScript's `null` / `undefined` results. */
  datatype Option<T> = None | Some(value: T) {

    /** The value, or `default` when absent (JavaScript's `??`). */
    function GetOr(default: T): T {
      match this
      case Some(v) => v
      case None => default
    }
  }
}
