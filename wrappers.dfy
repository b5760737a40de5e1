/** The optional value a resolver returns when a lookup may find nothing
    (GraphQL `null`). */
module Wrappers {
  datatype Option<+T> = None | Some(value: T)
}
