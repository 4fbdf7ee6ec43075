/** The nullable-value wrapper used for C#'s `T?` results (a lookup that may find nothing). */
module Wrappers {

  datatype Option<+T> = None | Some(value: T)
}
