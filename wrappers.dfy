/** The absent-or-present value that Python's `next(..., None)` yields. */
module Wrappers {
  datatype Option<+T> = None | Some(value: T)
}
