/** The answer of an interactive prompt: `None` when the operator cancels. */
module Wrappers {

  datatype Option<+T> = None | Some(value: T)
}
