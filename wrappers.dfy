/** Small helper datatypes shared by the other modules. */
module Wrappers {

  /** An optional value: `None` stands for the query that found no row. */
  datatype Option<+T> = None | Some(value: T)
}
