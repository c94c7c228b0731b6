/** The optional value used where the game code returns `null`. */
module Wrappers {
  datatype Option<+T> = None | Some(value: T)
}
