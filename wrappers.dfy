/** The conventional Option type, used for operations of the script that can
    raise instead of returning a value. */
module Wrappers {
  datatype Option<+T> = None | Some(value: T)
}
