/** What JavaScript code writes as a value or undefined. */
module Prelude {
  datatype Option<+T> = None | Some(value: T)
}
