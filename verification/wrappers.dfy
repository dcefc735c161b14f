/** An optional value: `None` stands for Python's `None` result or a raised lookup error. */
module Wrappers {

  datatype Option<+T> = None | Some(value: T)
}
