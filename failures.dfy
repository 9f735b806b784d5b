/** The exceptions of the tree and the dictionary, as tagged results. */
module Failures {

  /** ElementAlreadyExistsException, EmptyDataCollectionException and
      ElementDoesNotExistException. */
  datatype Error = AlreadyExists | EmptyCollection | NotFound

  /** An operation that returns a value or throws. */
  datatype Result<T> = Success(value: T) | Failure(error: Error)

  /** An operation that returns nothing or throws. */
  datatype Outcome = Pass | Fail(error: Error)
}
