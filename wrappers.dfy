/** The result of `Trace.Next`: the next label, or `None` once the iteration has ended. */
module Wrappers {
  datatype Option<+T> = None | Some(value: T)
}
