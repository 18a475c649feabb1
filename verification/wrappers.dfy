/** The absent-or-present wrapper used for JavaScript's `undefined` and `null` markers. */
module Wrappers {
  datatype Option<+T> = None | Some(value: T)
}
