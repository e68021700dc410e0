/** Python's `None`-or-value, used for every optional field and fallible lookup. */
module Wrappers {

  datatype Option<+T> = None | Some(value: T)

}
