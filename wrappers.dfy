/** The usual optional value: `None` stands for Python's `None` (or a caught exception). */
module Wrappers {

  datatype Option<+T> = None | Some(value: T)
}
