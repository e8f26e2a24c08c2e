/** Error values and the (value, error) pair that every step of the pipeline returns. */
module Results {

  /** The failures the pipeline can meet. The transport failures of an HTTP
      call (request, status, body read) and the JSON decode failure are kept
      apart so that a caller can tell which step failed. */
  datatype Error =
    | RequestFailed
    | UnexpectedStatus(code: int)
    | ReadFailed
    | ParseFailed
    | NoDataPoints

  /** Go's `(T, error)` return pair: exactly one side is present. */
  datatype Result<+T> = Success(value: T) | Failure(error: Error)
}
