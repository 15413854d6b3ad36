/** The optional value used wherever the Python code tests for `None` or an absent element. */
module Wrappers {

  datatype Option<+T> = None | Some(value: T)
}
