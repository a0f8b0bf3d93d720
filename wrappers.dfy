/** The optional value used wherever the program either produces a value or gives up
    (an exception it raises, a dialog it abandons, a lookup that finds nothing). */
module Wrappers {

  datatype Option<+T> = None | Some(value: T)
}
