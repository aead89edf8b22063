/** The optional value used wherever the program tests for "nothing found"
    (an empty list from the close-match search, `None` from the index lookup). */
module Wrappers {

  datatype Option<+T> = None | Some(value: T)
}
