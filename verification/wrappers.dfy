/** Wrappers shared by the model: `Option` stands for a Go pointer or a map
    lookup that may come back empty, `Result` for a Go `(value, error)`
    pair. */
module Wrappers {

  datatype Option<+T> = None | Some(value: T)

  datatype Result<+R, +E> = Success(value: R) | Failure(error: E)
}
