/** Option and Result values used where the JavaScript returns NaN, null or an
    `{ ok: false, message }` object instead of a value. */
module Wrappers {

  datatype Option<+T> = None | Some(value: T)

  datatype Result<+T, +E> = Success(value: T) | Failure(error: E)
}
