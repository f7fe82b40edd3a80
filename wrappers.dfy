/** A value that may be absent: a missing cell of the raw table, a search that found nothing. */
module Wrappers {

  datatype Option<T> = None | Some(value: T)

}
