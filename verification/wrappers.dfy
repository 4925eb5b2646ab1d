/** Option: the "value or nothing" result used by lookups and by the
    external signing and hashing primitives. */
module Wrappers {

  datatype Option<+T> = None | Some(value: T)

}
