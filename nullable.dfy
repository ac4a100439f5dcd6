/** A value or nothing: the model of TypeScript's `T | null`. */
module Nullable {
  datatype Option<+T> = None | Some(value: T)
}
