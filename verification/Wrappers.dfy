/** The optional value the models return where the program returns NULL, 0 or FALSE. */
module Wrappers {
  datatype Option<+T> = None | Some(value: T)
}
