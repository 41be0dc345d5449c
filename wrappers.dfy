/** Optional values and results with an error, used where app.js works with
    `null`, `NaN` or an early `return` after a failed check. */
module Wrappers {
  datatype Option<+T> = None | Some(value: T)

  datatype Result<+T, +E> = Ok(value: T) | Err(error: E)
}
