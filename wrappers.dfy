// An optional value, for the engine's nullable locals and arguments.
module Wrappers {

  datatype Option<+T> = None | Some(value: T)
}
