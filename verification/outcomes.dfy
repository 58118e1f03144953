/** Option and Result datatypes used throughout the model.
    `Result` stands for a JavaScript computation that either returns a value
    or throws an error carrying a message. */
module Outcomes {

  datatype Option<+T> = None | Some(value: T) {

    /** Returns the contained value, or `default` when there is none. */
    function GetOr(default: T): T {
      match this
      case Some(v) => v
      case None => default
    }
  }

  /** `Ok(v)` is a normal return of `v`; `Throw(m)` is an exception with message `m`. */
  datatype Result<+T> = Ok(value: T) | Throw(message: string)
}
