/** The Option datatype shared by the modules: Python's "value or None". */
module Wrappers {
  datatype Option<+T> = None | Some(value: T)
}
