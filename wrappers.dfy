/** Absent-or-present values: Python's `None` beside a real result. */
module Wrappers {

  datatype Option<+T> = None | Some(value: T)
}
