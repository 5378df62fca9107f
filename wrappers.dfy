/** Python's `None`-or-value, as used by the application for optional results. */
module Wrappers {

  datatype Option<+T> = None | Some(value: T)
}
