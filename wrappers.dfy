/** Optional values: a row that may be absent, a column that may be NULL. */
module Wrappers {

  datatype Option<+T> = None | Some(value: T)

}
