/** The usual Some/None datatype, standing for Python's `None` result of a lookup. */
module Wrappers {

  datatype Option<+T> = None | Some(value: T)

}
