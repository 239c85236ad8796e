/** Optional values and success/failure outcomes: the model's stand-ins for
    Python's `Optional[...]` and for the `ValueError`s the constructors raise. */
module Results {

  datatype Option<+T> = None | Some(value: T)

  datatype Result<+R, +E> = Success(value: R) | Failure(error: E)
}
