/** Absent-or-present values: JavaScript's `undefined` fields and Go's `(value, ok)` lookups. */
module Wrappers {

  datatype Option<+T> = None | Some(value: T)
}
