/** The optional value the queries of the co-occurrence matrix return for unknown words. */
module Wrappers {

  datatype Option<+T> = None | Some(value: T)
}
