/** Failure-carrying result types shared by the resolver and the table builder. */
module Wrappers {

  /** An optional value: the absent case stands for "no such item". */
  datatype Option<+T> = None | Some(value: T)

  /** Either a value or the error that prevented computing it. */
  datatype Result<+T, +E> = Success(value: T) | Failure(error: E)
}
