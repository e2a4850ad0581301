/** Option and Result, the shapes the model uses for JavaScript's `null`,
    `undefined`, `NaN` and thrown errors. */
module Wrappers {

  datatype Option<+T> = None | Some(value: T)

  datatype Result<+T, +E> = Success(value: T) | Failure(error: E)
}
