/** The `T | null` values of the source: `None` stands for `null` (or `undefined`). */
module Nullable {
  datatype Option<T> = None | Some(value: T)
}
