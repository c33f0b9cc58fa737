/** The optional value that the host's lookups and the resolver return. */
module Wrappers {

  datatype Option<+T> = None | Some(value: T)
}
