/** The optional value used where the script reads `null` or `undefined`. */
module Wrappers {

  datatype Option<+T> = None | Some(value: T)
}
