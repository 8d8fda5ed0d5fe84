/** Optional values shared by the runtime model. */
module Wrappers {

  /** A value that may be absent: a nullable pointer or a search that found nothing. */
  datatype Option<+T> = None | Some(value: T)
}
