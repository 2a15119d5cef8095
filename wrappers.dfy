/** The Option datatype used for "a value or nothing" results (TypeScript's `T | undefined`). */
module Wrappers {

  datatype Option<+T> = None | Some(value: T)
}
