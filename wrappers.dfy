/** An optional value, standing for JavaScript's `null` / `{}` results. */
module Wrappers {

  datatype Option<+T> = None | Some(value: T)
}
