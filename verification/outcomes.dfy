/** Optional values and success/failure results, standing in for JavaScript's
    `null` returns and thrown errors. */
module Outcomes {

  datatype Option<+T> = None | Some(value: T)

  /** `Err` carries the message of the error the JavaScript code would throw. */
  datatype Result<+T, +E> = Ok(value: T) | Err(error: E)
}
