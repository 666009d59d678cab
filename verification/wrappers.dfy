/** Option, for the places where the editor's code tests a reference against null. */
module Wrappers {

  datatype Option<+T> = None | Some(value: T)
}
