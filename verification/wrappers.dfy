/** Optional values and results with an error, the two shapes the dispatcher
    needs in place of JavaScript's `undefined` and thrown exceptions. */
module Wrappers {

  /** `None` stands for `undefined` where a handler's answer is tested
      (`!== undefined`), and for `undefined` or `null` where the `??`
      operator reads a result's type tag. */
  datatype Option<+T> = None | Some(value: T) {

    /** The encapsulated value, or `default` when there is none: the `??` operator. */
    function GetOr(default: T): T
    {
      match this
      case Some(v) => v
      case None => default
    }
  }

  /** A value, or the error that was thrown instead of producing one. */
  datatype Result<+R, +E> = Success(value: R) | Failure(error: E)
}
