/** The optional value used for C's nullable results and arguments. */
module Wrappers {

  /** `None` stands for a NULL pointer or a failed query. */
  datatype Option<+T> = None | Some(value: T)
}
