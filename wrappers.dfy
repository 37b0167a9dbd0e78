/** The optional value that stands for Python's `None` results. */
module Wrappers {

  datatype Option<+T> = None | Some(value: T)
}
