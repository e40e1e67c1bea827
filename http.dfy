/** The server's error responses: FastAPI's `HTTPException(status_code, detail)`. */
module Http {

  /** An error response: an HTTP status code and the `detail` text of its JSON body. */
  datatype HttpError = HttpError(status: int, detail: string)
}
