/** The outcome of an operation that the source can reject: a value, or
    the error it raises or the failure it runs into. */
module Results {

  datatype Result<T> = Success(value: T) | Failure(error: string)
}
