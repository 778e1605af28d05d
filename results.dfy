/** Error returns of the split engine. */
module Results {

  /** The only error `fit` itself reports: the namer's template check failed. */
  datatype Error = InvalidTemplate

  datatype Result<T> = Success(value: T) | Failure(error: Error)

  datatype Option<T> = None | Some(value: T)
}
