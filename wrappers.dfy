/** Option: a value that may be absent. It stands for Python's None and for pandas' NaN. */
module Wrappers {

  datatype Option<+T> = None | Some(value: T)
}
