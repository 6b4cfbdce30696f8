/** Nullable values: the source's `nullptr` results become `None`. */
module Wrappers {

  datatype Option<+T> = None | Some(value: T)
}
