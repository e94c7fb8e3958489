/** A nullable reference or value: `null` in the modelled code is `None`. */
module Wrappers {
  datatype Option<+T> = None | Some(value: T)
}
