/** What a FastAPI endpoint ends with. */
module Http {
  /** `HTTPException(status_code, detail)`. */
  datatype HttpError = HttpError(status: int, detail: string)

  /** A return value, a raised `HTTPException`, or any other exception, which the framework answers with its own 500. */
  datatype Outcome<+T> = Return(value: T) | Raise(error: HttpError) | Crash
}
