/** The optional value the engine stores where the source keeps `null`. */
module Wrappers {
  datatype Option<+T> = None | Some(value: T)
}
