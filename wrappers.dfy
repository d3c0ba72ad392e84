/** Optional values, for the fields of the data model that may be null and for lookups that may find nothing. */
module Wrappers {

  datatype Option<+T> = None | Some(value: T)
}
