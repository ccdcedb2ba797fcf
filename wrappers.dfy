/** The optional result of `createblock`: the new block, or nothing when the call was refused. */
module Wrappers {
  datatype Option<+T> = None | Some(value: T)
}
