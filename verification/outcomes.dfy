/**
  Failure-carrying values. The loaders either produce a value or throw an
  `Error` with a fixed message; `Result` stands for that choice and
  `Option` for an absent value (a skipped row, a column that is not there).
 */
module Outcomes {

  datatype Option<+T> = None | Some(value: T)

  datatype Result<+T, +E> = Success(value: T) | Failure(error: E)
}
