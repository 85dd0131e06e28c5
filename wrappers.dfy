/** Option type shared by the modules of the crash-screen and scrambler models. */
module Wrappers {
  datatype Option<+T> = None | Some(value: T)
}
