/** What a handler answers: a status code and a body. */
module Http {
  import opened Model

  const OK: int := 200
  const CREATED: int := 201
  const BAD_REQUEST: int := 400
  const NOT_FOUND: int := 404
  const INTERNAL_SERVER_ERROR: int := 500

  /** `HttpStatus.getReasonPhrase` for the statuses the error envelopes use. */
  function ReasonPhrase(status: int): string
    requires status in {BAD_REQUEST, NOT_FOUND, INTERNAL_SERVER_ERROR}
  {
    if status == BAD_REQUEST then "Bad Request"
    else if status == NOT_FOUND then "Not Found"
    else "Internal Server Error"
  }

  /**
   * `NoBody` is a response built without a body; `NullBody` records a `null`
   * body object, which also reaches the client as an empty body.
   */
  datatype Body =
    | NoBody
    | NullBody
    | BookBody(book: Book)
    | BooksBody(books: seq<Book>)
    | ErrorBody(error: ApiError)

  datatype Response = Response(status: int, body: Body)
}
