/** The optional value used where `search_list` accepts `None`. */
module Wrappers {

  datatype Option<+T> = None | Some(value: T)

}
