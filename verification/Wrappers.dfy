/** The optional values shared by the modules: a JSON field that may be missing, a search that may find nothing. */
module Wrappers {
  datatype Option<+T> = None | Some(value: T)
}
