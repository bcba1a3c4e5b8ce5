/** The optional value used throughout the model for JavaScript's
    `undefined` / `null` results. */
module Wrappers {

  datatype Option<+T> = None | Some(value: T)
}
