/** An optional value: a result that may be absent, as the engine's `null`. */
module Wrappers {

  datatype Option<T> = None | Some(value: T)
}
