/** Optional values: a nullable column, a `fetchone()` that may find no row. */
module Wrappers {

  datatype Option<+T> = None | Some(value: T)

}
