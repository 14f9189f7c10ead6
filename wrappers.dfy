/** Optional values: a field that may be absent from a document, or a query with no answer. */
module Wrappers {
  datatype Option<+T> = None | Some(value: T)
}
