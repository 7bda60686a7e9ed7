/** Optional values, results, and the JavaScript errors the modelled code can throw. */
module Wrappers {

  /** `undefined` (None) or a present value. */
  datatype Option<+T> = None | Some(value: T)
  {
    function GetOr(default: T): T
    {
      match this
      case Some(v) => v
      case None => default
    }
  }

  /** A value, or the error a JavaScript expression throws instead of producing one. */
  datatype Result<+T, +E> = Ok(value: T) | Err(error: E)

  /** The built-in JavaScript errors the modelled code can raise. */
  datatype JsError = TypeError | RangeError
}
