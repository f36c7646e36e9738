/** The optional value that a dictionary lookup such as `dict.get(key)`
    returns: the value, or nothing. */
module Wrappers {
  datatype Option<+T> = None | Some(value: T)
}
