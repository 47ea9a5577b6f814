/** Optional values and error results, standing in for the program's empty
    match lists and its error exits. */
module Results {

  datatype Option<+T> = None | Some(value: T)

  datatype Result<+T, +E> = Success(value: T) | Failure(error: E)
}
