/** A value that may be missing: Swift's optionals, and the calls that return nil. */
module Optionals {

  datatype Option<+T> = None | Some(value: T)
}
