/** The optional value the sorted-set commands return (a missing rank is `null`). */
module Wrappers {

  datatype Option<+T> = None | Some(value: T)
}
