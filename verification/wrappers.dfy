/** The optional result of a lookup: Objective-C's `nil` is `None`. */
module Wrappers {

  datatype Option<+T> = None | Some(value: T)
}
