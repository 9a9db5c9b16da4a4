/** The two failure-carrying shapes the model needs: an optional value (Go's
    nil-or-present slices and maps, and the answer of every decoder) and a
    value-or-error pair (Go's `(T, error)` returns). */
module Wrappers {

  datatype Option<+T> = None | Some(value: T)

  datatype Result<+T, +E> = Ok(value: T) | Err(error: E)
}
