// The result of an operation that may come back empty-handed (a NULL pointer, a full table).
module Wrappers {
  datatype Option<+T> = None | Some(value: T)
}
