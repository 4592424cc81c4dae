/** An optional value, for the places where the intake path may have nothing to report. */
module Wrappers {
  datatype Option<+T> = None | Some(value: T)
}
