/** Optional values: a JavaScript `undefined`/`null` or a Python `None`. */
module Wrappers {
  datatype Option<+T> = None | Some(value: T)
}
