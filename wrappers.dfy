/** A value that may be missing: a label cell that is NaN, a date that did not parse. */
module Wrappers {
  datatype Option<+T> = None | Some(value: T)
}
