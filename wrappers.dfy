/** Optional values: a JavaScript property that is either present or `undefined`. */
module Wrappers {
  datatype Option<+T> = None | Some(value: T)
}
