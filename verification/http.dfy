/** The shape of a back-end route's answer: a value, or the `HTTPException` it raised. */
module Http {
  /** An `HTTPException`: a status code and its detail text. */
  datatype HttpError = HttpError(status: int, detail: string)

  /** A route's answer: its value, or the exception it raised. */
  datatype Result<T> = Success(value: T) | Failure(error: HttpError)
}
