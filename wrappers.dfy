/** The optional value used for JavaScript's `null` / `undefined` properties. */
module Wrappers {
  datatype Option<+T> = None | Some(value: T)
}
