/** An optional value: the model's stand-in for the source's nullable references and `?` props. */
module Wrappers {

  datatype Option<+T> = None | Some(value: T)
}
