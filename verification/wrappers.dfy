/** Optional values, used wherever the source reads a field that may be
    missing or searches a collection that may not contain what it looks for. */
module Wrappers {

  datatype Option<+T> = None | Some(value: T)
}
