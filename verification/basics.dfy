/** Small failure-carrying datatypes shared by every module of the model. */
module Basics {

  /** A value that may be absent: JavaScript's `undefined` / `null`. */
  datatype Option<+T> = None | Some(value: T) {
    function GetOr(default: T): T {
      match this
      case Some(v) => v
      case None => default
    }
  }

  /** Either a value or the error the JavaScript code would throw. */
  datatype Result<+T, +E> = Ok(value: T) | Err(error: E)

  /** The exceptions the browser raises inside the modelled code. */
  datatype Fault =
    | TypeError          // a property read or method call on a value that lacks it
    | NotModelled        // a JavaScript coercion the model does not follow (see the README)
}
