/** Absent-or-present values, used where the source passes `None`. */
module Wrappers {
  datatype Option<+T> = None | Some(value: T)
}
