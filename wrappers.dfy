/** Optional values: a SQL NULL, a row that `fetchone` did not find, a parse that failed. */
module Wrappers {

  datatype Option<+T> = None | Some(value: T)
}
