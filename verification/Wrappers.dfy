/** The two carriers of partial answers used throughout: an absent document field or
    query result, and an operation that either yields a value or refuses with a reason. */
module Wrappers {

  datatype Option<+T> = None | Some(value: T)

  datatype Result<+T, +E> = Ok(value: T) | Err(error: E)
}
