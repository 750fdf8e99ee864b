/** The optional value of Python's `None`-or-something results. */
module Wrappers {

  datatype Option<+T> = None | Some(value: T)
}
