/** Python's `None`-or-value, used for nullable database columns and session fields. */
module Wrappers {

  datatype Option<+T> = None | Some(value: T)
}
