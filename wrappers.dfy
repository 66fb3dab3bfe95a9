/** The optional value used wherever the Python code returns None or a falsy value. */
module Wrappers {

  datatype Option<+T> = None | Some(value: T)
}
