/** Optional values: a field the captured record may lack, or a tab with no record at all. */
module Wrappers {

  datatype Option<+T> = None | Some(value: T)
}
