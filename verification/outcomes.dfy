/** Optional values and fallible results used throughout the model.

    `Option` doubles as the model of a JavaScript value that may be
    `undefined`; `Result` stands for a promise that either resolves with a
    value or rejects with an error.
 */
module Outcomes {

  datatype Option<+T> = None | Some(value: T)

  datatype Result<+T, +E> = Ok(value: T) | Err(error: E)
}
