/** The optional value used for the view's implicitly unwrapped optionals and
    for the hit test's "no cell" answer. */
module Wrappers {

  datatype Option<+T> = None | Some(value: T)
}
