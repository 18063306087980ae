/** The optional value used for map lookups and searches. */
module Wrappers {

  datatype Option<T> = None | Some(value: T)

}
