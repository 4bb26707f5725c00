/** The optional value the engine returns when a draw sequence runs out. */
module Wrappers {
  datatype Option<+T> = None | Some(value: T)
}
