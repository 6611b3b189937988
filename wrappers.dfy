/** The optional value used wherever the page may or may not carry an element or attribute. */
module Wrappers {

  datatype Option<+T> = None | Some(value: T)

}
