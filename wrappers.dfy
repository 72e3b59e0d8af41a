/** Failure-carrying values: `None` stands for a Python exception or a
    missing key. */
module Wrappers {

  datatype Option<+T> = None | Some(value: T)
}
