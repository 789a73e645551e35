/** The absent-or-present value used throughout: a nullable column, a missing key, a failed lookup. */
module Wrappers {
  datatype Option<+T> = None | Some(value: T)
}
