/** Python's `None` next to a present value, for the functions of app.py that may return None. */
module Wrappers {

  datatype Option<+T> = None | Some(value: T)
}
