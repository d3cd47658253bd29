/** The optional value used throughout the model for JavaScript's `null` / `undefined`. */
module Wrappers {

  /** `None` stands for a missing value (`null` or `undefined`), `Some(v)` for a present one. */
  datatype Option<+T> = None | Some(value: T)
}
