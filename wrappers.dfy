/** Missing-or-present values: a Python `None` (or a pandas NaN, or a caught
    exception that makes a function return `None`) is `None` here. */
module Wrappers {
  datatype Option<+T> = None | Some(value: T)
}
