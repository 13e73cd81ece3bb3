/** The optional value used wherever the page's TypeScript code works with `undefined` or `null`. */
module Wrappers {

  datatype Option<+T> = None | Some(value: T)
}
