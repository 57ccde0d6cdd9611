/** An optional value: `None` stands for a lookup that fails or an exception the source raises. */
module Wrappers {
  datatype Option<+T> = None | Some(value: T)
}
