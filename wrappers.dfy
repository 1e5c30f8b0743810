/** A value that may be absent (JavaScript's `undefined`, or "not found"). */
module Wrappers {

  datatype Option<+T> = None | Some(value: T)
}
