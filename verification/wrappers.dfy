/** Absent-or-present values: a missing schedule entry, an unparseable
    time string, an alarm that cannot be computed. */
module Wrappers {

  datatype Option<+T> = None | Some(value: T)
}
