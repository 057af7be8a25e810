/** A nullable reference: `None` stands for C's NULL. */
module Wrappers {

  datatype Option<+T> = None | Some(value: T)
}
