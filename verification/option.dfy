/** An optional value, for Python's `None`-or-value results. */
module Opt {
  datatype Option<T> = None | Some(value: T)
}
