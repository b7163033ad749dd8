/** A value or nothing, as `std::optional`, a null pointer or a thrown exception says it. */
module Wrappers {
  datatype Option<+T> = None | Some(value: T)
}
