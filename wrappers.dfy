/** Option: a value that may be absent (JavaScript `null`/`undefined`, Python `None`). */
module Wrappers {
  datatype Option<T> = None | Some(value: T)
}
