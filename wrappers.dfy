/** Optional values: a request-body field or a document field that may be absent (`undefined`). */
module Wrappers {

  datatype Option<+T> = None | Some(value: T)
}
