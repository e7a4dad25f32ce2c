/** Optional values and results with an error, used where the source returns
    `Optional`, a nullable reference, or throws `ValidacaoException`. */
module Base {

  datatype Option<+T> = None | Some(value: T)

  datatype Result<+T, +E> = Success(value: T) | Failure(error: E)
}
