/** An optional value, as Python's None and TypeScript's null/undefined are used in the handlers. */
module Wrappers {

  datatype Option<+T> = None | Some(value: T)
}
