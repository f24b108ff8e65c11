/**
 * `BookController`: each handler turns the service's answer into a status and
 * a body. A not-found answer goes to the error handler; a request body that
 * breaks the DTO's constraints is turned away before the service is called.
 */
module Controller {
  import opened Options
  import opened Model
  import opened Http
  import opened BookNotFound
  import opened Store
  import opened Validation
  import opened ErrorHandler
  import Service
  import DecimalText

  /** GET /books: 200 with the list when there is a book, 404 without a body otherwise. */
  function GetBooks(books: seq<Book>): (resp: Response)
    ensures resp.status == OK <==> books != []
    ensures books != [] ==> resp.body == BooksBody(books)
    ensures books == [] ==> resp == Response(NOT_FOUND, NoBody)
  {
    if books != [] then Response(OK, BooksBody(books)) else Response(NOT_FOUND, NoBody)
  }

  /** GET /books/{id}: 200 with the book, or the not-found envelope. */
  function GetBookById(r: Result<Book>, description: string): (resp: Response)
    ensures r.Ok? ==> resp == Response(OK, BookBody(r.value))
    ensures r.Err? ==> resp == Handle(NotFound(r.error), description)
  {
    match r
    case Ok(book) => Response(OK, BookBody(book))
    case Err(ex) => HandleBookNotFound(ex, description)
  }

  /** DELETE /books: the snapshot that was deleted with 200, or 404 when there was none. */
  function DeleteBooks(deleted: seq<Book>): (resp: Response)
    ensures resp.status == OK <==> deleted != []
    ensures deleted != [] ==> resp.body == BooksBody(deleted)
    ensures deleted == [] ==> resp == Response(NOT_FOUND, NoBody)
  {
    if deleted != [] then Response(OK, BooksBody(deleted)) else Response(NOT_FOUND, NoBody)
  }

  /** DELETE /books/{id}: 200 with the deleted book, or the not-found envelope. */
  function DeleteBookById(r: Result<Book>, description: string): (resp: Response)
    ensures r.Ok? ==> resp == Response(OK, BookBody(r.value))
    ensures r.Err? ==> resp == Handle(NotFound(r.error), description)
  {
    match r
    case Ok(book) => Response(OK, BookBody(book))
    case Err(ex) => HandleBookNotFound(ex, description)
  }

  /** POST /books: 201 with exactly what the service saved. */
  function AddBook(saved: Book): (resp: Response)
    ensures resp.status == CREATED && resp.body.BookBody? && resp.body.book == saved
  {
    Response(CREATED, BookBody(saved))
  }

  /** POST /books/all: 201 with exactly what the service saved (`null` included). */
  function AddBooks(saved: Option<seq<Book>>): (resp: Response)
    ensures resp.status == CREATED
    ensures saved.Some? ==> resp.body == BooksBody(saved.value)
    ensures saved.None? ==> resp.body == NullBody
  {
    match saved
    case Some(books) => Response(CREATED, BooksBody(books))
    case None => Response(CREATED, NullBody)
  }

  /** PUT /books/{id}: 200 with the updated book (`null` for a `null` answer), or the not-found envelope. */
  function UpdateBook(r: Result<Option<Book>>, description: string): (resp: Response)
    ensures r.Ok? && r.value.Some? ==> resp == Response(OK, BookBody(r.value.value))
    ensures r.Ok? && r.value.None? ==> resp == Response(OK, NullBody)
    ensures r.Err? ==> resp == Handle(NotFound(r.error), description)
  {
    match r
    case Ok(Some(book)) => Response(OK, BookBody(book))
    case Ok(None) => Response(OK, NullBody)
    case Err(ex) => HandleBookNotFound(ex, description)
  }

  /**
   * `@Valid` on a `BookDTO` body: when a constraint is broken the handler is
   * not run and the request is answered by `handleMethodArgumentNotValid`.
   */
  function CheckBody(dto: BookDTO, description: string): (rejected: Option<Response>)
    ensures rejected.Some? <==> Violations(dto) != []
    ensures rejected.Some? ==> rejected.value == Handle(ArgumentNotValid(Violations(dto)), description)
  {
    var errors := Violations(dto);
    if errors == [] then None else Some(HandleMethodArgumentNotValid(errors, description))
  }

  /** A body gets through to the service exactly when its title and author are valid. */
  lemma CheckBodyPassesIff(dto: BookDTO, description: string)
    ensures CheckBody(dto, description).None? <==> ValidTitle(dto.title) && ValidAuthor(dto.author)
  {
    ValidIff(dto);
  }

  lemma TitleSizeMessage()
    ensures SizeMessage(10, 30) == "size must be between 10 and 30"
  {
    assert DecimalText.NatToString(10) == "10";
    assert DecimalText.NatToString(30) == "30";
  }

  /** Where a short title's size error sits among a DTO's field errors. */
  lemma ShortTitleErrorAt(dto: BookDTO) returns (i: nat)
    requires dto.title.Some? && |dto.title.value| < 10
    ensures i < |Violations(dto)| && Violations(dto)[i] == FieldError("title", "size must be between 10 and 30")
  {
    var title := FieldViolations("title", dto.title, 10, 30);
    i := if NotBlank(dto.title) then 0 else 1;
    assert title[i] == FieldError("title", SizeMessage(10, 30));
    assert Violations(dto)[i] == title[i];
    TitleSizeMessage();
  }

  lemma ShortTitleText()
    ensures "title" + ": " + "size must be between 10 and 30" == "title: size must be between 10 and 30"
  {
  }

  /** How the envelope words a short title's size error. */
  lemma ShortTitleLine(errors: seq<FieldError>, i: nat)
    requires i < |errors| && errors[i] == FieldError("title", "size must be between 10 and 30")
    ensures "title: size must be between 10 and 30" in FormatFieldErrors(errors)
  {
    var lines := FormatFieldErrors(errors);
    assert lines[i] == errors[i].field + ": " + errors[i].message;
    ShortTitleText();
  }

  /** A title shorter than ten characters is answered 400, with a line about the title. */
  lemma ShortTitleAnswers400(dto: BookDTO, description: string)
    requires dto.title.Some? && |dto.title.value| < 10
    ensures CheckBody(dto, description).Some?
    ensures CheckBody(dto, description).value.status == BAD_REQUEST
    ensures "title: size must be between 10 and 30" in CheckBody(dto, description).value.body.error.validationErrors.value
  {
    var i := ShortTitleErrorAt(dto);
    ShortTitleLine(Violations(dto), i);
  }

  /** The list status depends on nothing but whether the list is empty. */
  lemma ListStatusOnlyOnEmptiness(a: seq<Book>, b: seq<Book>)
    requires (a == []) == (b == [])
    ensures GetBooks(a).status == GetBooks(b).status
    ensures DeleteBooks(a).status == DeleteBooks(b).status
  {
  }

  /** An id that is not stored is answered 404 with the not-found message for that id. */
  lemma MissingIdAnswers404(rows: seq<Book>, id: int, description: string)
    requires !HasId(rows, id)
    ensures GetBookById(Lookup(rows, id), description).status == NOT_FOUND
    ensures GetBookById(Lookup(rows, id), description).body.error.message
      == Some(MessagePrefix + DecimalText.IntToString(id))
  {
  }

  /** The request URI of the controller test has no marker in it. */
  lemma TestUriHasNoMarker()
    ensures !HasMarker("/api/v1/books/2")
  {
    var uri := "/api/v1/books/2";
    assert forall j :: 0 <= j < |uri| ==> uri[j] != 'u';
    forall i: nat | i <= |uri| ensures !MarkerAt(uri, i) {
      if i + |UriMarker| <= |uri| { assert uri[i..i + |UriMarker|][0] == uri[i]; }
    }
  }

  /**
   * The controller test's case: GET of id 2 on a table without it answers 404
   * with "Book not found with id: 2" and the request URI as the path.
   */
  lemma MissingTwoAnswers404(rows: seq<Book>, requestUri: string)
    requires !HasId(rows, 2) && !HasMarker(requestUri)
    ensures GetBookById(Lookup(rows, 2), UriMarker + requestUri)
      == Response(NOT_FOUND, ErrorBody(ApiError(NOT_FOUND, "Not Found", Some("Book not found with id: 2"), requestUri, None)))
  {
    MessageForTwo();
    RequestPath(requestUri);
  }

  /**
   * The controller test's request itself: GET /api/v1/books/2, whose servlet
   * description is "uri=/api/v1/books/2", on a table without id 2.
   */
  lemma TestRequestAnswers404(rows: seq<Book>)
    requires !HasId(rows, 2)
    ensures GetBookById(Lookup(rows, 2), "uri=/api/v1/books/2")
      == Response(NOT_FOUND, ErrorBody(ApiError(NOT_FOUND, "Not Found", Some("Book not found with id: 2"), "/api/v1/books/2", None)))
  {
    TestUriHasNoMarker();
    MissingTwoAnswers404(rows, "/api/v1/books/2");
    assert UriMarker + "/api/v1/books/2" == "uri=/api/v1/books/2";
  }

  /** PUT on a stored id answers 200 with the overwritten book, which keeps the path's id. */
  lemma UpdateKeepsPathId(rows: seq<Book>, id: int, dto: BookDTO, description: string)
    requires HasId(rows, id)
    ensures var resp := UpdateBook(Ok(Some(Service.Overwrite(Lookup(rows, id).value, dto))), description);
      && resp.status == OK
      && resp.body.book.id == Some(id)
      && Payload(resp.body.book) == dto
  {
  }
}
