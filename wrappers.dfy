/**
 * An optional value: JavaScript's `null` result of a file read, or the
 * `undefined` answer of a dismissed selection dialog.
 */
module Wrappers {
  datatype Option<T> = None | Some(value: T)
}
