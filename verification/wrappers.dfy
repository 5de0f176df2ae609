/** The optional value used wherever the tracker reads `null` or an absent key. */
module Wrappers {

  datatype Option<+T> = None | Some(value: T)
}
