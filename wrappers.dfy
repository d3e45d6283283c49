/** The optional value the generator returns where Python returns `None`. */
module Wrappers {

  datatype Option<+T> = None | Some(value: T)
}
