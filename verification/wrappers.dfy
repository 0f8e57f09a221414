/** The optional value used wherever the game holds `null` or `undefined`. */
module Wrappers {

  datatype Option<+T> = None | Some(value: T)

}
