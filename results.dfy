/** Option and Result values used for the optional values and the raised
    exceptions of the scanning code. */
module Results {

  /** A value that may be missing: Python's `None` or a failed lookup. */
  datatype Option<+T> = None | Some(value: T)

  /** The outcome of an operation that either returns normally or raises. */
  datatype Result<+T, +E> = Success(value: T) | Failure(error: E)

  /** FastAPI's HTTPException: a status code and a detail message. */
  datatype HttpError = HttpError(statusCode: int, detail: string)
}
