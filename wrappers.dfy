/** The conventional optional-value datatype, used for absent record fields. */
module Wrappers {

  datatype Option<+T> = None | Some(value: T)
}
