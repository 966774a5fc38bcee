/** The optional value the handlers pass around (a file that may be absent,
    a reader result that may be null, a request that may not be issued). */
module Wrappers {
  datatype Option<+T> = None | Some(value: T)
}
