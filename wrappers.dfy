/** Optional values, used for a table selection that may be absent and for a
    decoder that may fail. */
module Wrappers {

  datatype Option<+T> = None | Some(value: T)
}
