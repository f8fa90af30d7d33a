/** Failure-carrying results shared by the modules below.
    A Go `error` that is either nil or `errors.New(msg)` becomes `Option<string>`;
    a Go pair `(value, error)` whose value is meaningless on error becomes `Result`. */
module Wrappers {

  datatype Option<+T> = None | Some(value: T)

  datatype Result<+T, +E> = Success(value: T) | Failure(error: E)
}
