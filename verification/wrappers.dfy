/** Absent-or-present values, standing in for Python's `None`. */
module Wrappers {
  datatype Option<+T> = None | Some(value: T)
}
