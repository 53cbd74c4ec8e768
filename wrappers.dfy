/** An optional value: `None` stands for Python's `None` / a missing (NaN) cell. */
module Wrappers {

  datatype Option<+T> = None | Some(value: T)
}
