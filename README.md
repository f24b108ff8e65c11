# Bookstore book service, modelled in Dafny

This project models the core of a small Spring bookstore. Its REST API creates, reads,
updates and deletes `Book` rows (title, author, price) in one table. The model covers five parts:

- **`BookService`** (`book_service.dfy`, module `Service`). It is a class over a book table.
  Each method's contract states the result and the table's new state in terms of the table's
  old state. "Not found" is the result value `Err(BookNotFoundException(id))`, not a thrown
  exception. Java `null` arguments and results are `Option.None`.
- **The book table** (`store.dfy`, `book_repository.dfy`). The service uses a Spring Data
  `BookRepository` whose code is not part of this model. Class `Repository.BookRepository`
  stands in for it. It holds the rows in storage order, the next value of the id sequence, and
  a ghost log of the write calls made to it. The log lets a contract say that no `deleteAll`,
  `deleteById` or `save` took place. Module `Store` defines, as pure functions, what
  `findById`, `deleteById`, `save` and `saveAll` do to the rows. Its lemmas state how a lookup
  by id sees each change: the touched id changes as expected, and every other id gets the
  same answer as before. Other lemmas show that every change keeps the table invariant: ids
  are assigned, positive, below the next sequence value, and unique.
- **`BookDTO` validation** (`validation.dfy`). These are the `@NotBlank` and `@Size`
  constraints on title (10–30 characters) and author (5–15), with one field error per broken
  constraint. Price has no constraint. The service never checks these constraints; only the
  controller's `@Valid` does.
- **`BookController`** (`book_controller.dfy`). Each handler is a pure function from the
  service's answer to a status and a body. `CheckBody` models the `@Valid` gate, which runs
  before the handler. The end-to-end lemmas cover these cases: a missing id answers 404, a
  short title answers 400, an empty list answers 404, and PUT keeps the path's id.
- **`GlobalRestExceptionHandler` and `BookNotFoundException`** (`error_handler.dfy`,
  `book_not_found.dfy`). Each error kind maps to its envelope. The path is the request
  description with `"uri="` removed, the way Java's `String.replace` does it. The not-found
  message is a fixed prefix followed by the id in decimal (`decimal_text.dfy`, with a parser
  proved to invert it).

The service performs no validation (the service test stores a 16-character author);
validation happens only at the controller boundary (`@Valid`).

## Model

| member | source | states |
|---|---|---|
| `DecimalText.IntToString` | src/main/java/com/example/Bookstore/exception/BookNotFoundException.java:5 | renders a `Long` in decimal: at least one character, a leading minus sign exactly for negative values |
| `DecimalText.IntRoundTrip` | src/main/java/com/example/Bookstore/exception/BookNotFoundException.java:5 | parsing the decimal rendering gives back the integer |
| `DecimalText.IntToStringInjective` | src/main/java/com/example/Bookstore/exception/BookNotFoundException.java:5 | distinct ids render differently |
| `BookNotFound.NotFoundMessage` | src/main/java/com/example/Bookstore/exception/BookNotFoundException.java:4-5 | the message starts with "Book not found with id: " and the rest is the decimal id |
| `BookNotFound.MessageInjective` | src/main/java/com/example/Bookstore/exception/BookNotFoundException.java:5 | equal messages mean equal ids |
| `BookNotFound.MessageForTwo` | src/test/java/com/example/Bookstore/controller/BookControllerTest.java:56-61 | id 2 gives exactly "Book not found with id: 2" |
| `Store.IndexOf` | src/main/java/com/example/Bookstore/service/BookService.java:24 | the first row whose id is `id`; none exactly when no row has that id |
| `Store.Lookup` | src/main/java/com/example/Bookstore/service/BookService.java:23-25 | found exactly when some row has the id; the found book is a stored row with that id; otherwise the error names that id |
| `Store.Numbered` | src/main/java/com/example/Bookstore/service/BookService.java:47 | `saveAll` of new entities: same length, i-th entity with id `first + i` and otherwise unchanged |
| `Store.LookupStoredRow` | src/main/java/com/example/Bookstore/service/BookService.java:23-25 | with unique ids, looking up a stored row's id returns that row |
| `Store.LookupAfterAppend` | src/main/java/com/example/Bookstore/service/BookService.java:41-43 | after appending a row with a fresh id, that id finds it and every other id gets the same answer as before |
| `Store.LookupAfterWithout` | src/main/java/com/example/Bookstore/service/BookService.java:35-39 | after `deleteById`, that id is not found and every other id gets the same answer as before |
| `Store.LookupAfterPut` | src/main/java/com/example/Bookstore/service/BookService.java:56-65 | after saving over a stored id, that id finds the new row and every other id gets the same answer as before |
| `Store.InvariantAfterWithout` | src/main/java/com/example/Bookstore/service/BookService.java:37 | deleting by id keeps ids assigned, fresh-bounded and unique |
| `Store.InvariantAfterPut` | src/main/java/com/example/Bookstore/service/BookService.java:62 | overwriting a row under its own id keeps the invariant |
| `Store.InvariantAfterNumbered` | src/main/java/com/example/Bookstore/service/BookService.java:45-54 | ids handed out from the sequence are absent from the table and pairwise distinct, so the invariant holds after the batch |
| `Store.AddThenGet` | src/main/java/com/example/Bookstore/service/BookService.java:41-43 | a book saved under the next id is found by that id with its fields unchanged |
| `Repository.BookRepository.FindAll` | src/main/java/com/example/Bookstore/service/BookService.java:20 | returns the rows in storage order |
| `Repository.BookRepository.FindById` | src/main/java/com/example/Bookstore/service/BookService.java:24 | `Store.Find` of the rows: present exactly when a row has the id; the result is that stored row |
| `Repository.BookRepository.Save` | src/main/java/com/example/Bookstore/service/BookService.java:42 | an id-less entity is appended under the next id; an entity with a stored id overwrites that row (`Store.Put`); the invariant is kept and the call is logged |
| `Repository.BookRepository.SaveAll` | src/main/java/com/example/Bookstore/service/BookService.java:47 | appends the entities with consecutive fresh ids in order and returns them; the invariant is kept |
| `Repository.BookRepository.DeleteById` | src/main/java/com/example/Bookstore/service/BookService.java:37 | the rows become `Store.Without(rows, id)`: the row with that id is removed (none: no change); the id sequence is untouched |
| `Repository.BookRepository.DeleteAll` | src/main/java/com/example/Bookstore/service/BookService.java:30 | empties the table; the id sequence is untouched |
| `Service.MapToBook` | src/main/java/com/example/Bookstore/service/BookService.java:67-75 | the entity has no id and carries exactly the DTO's title, author and price |
| `Service.MapAll` | src/main/java/com/example/Bookstore/service/BookService.java:47 | one id-less entity per DTO, in order, each carrying its DTO's fields |
| `Service.Overwrite` | src/main/java/com/example/Bookstore/service/BookService.java:59-61 | keeps the id and takes the DTO's title, author and price |
| `Service.BookService.GetBooks` | src/main/java/com/example/Bookstore/service/BookService.java:19-21 | exactly the stored books in storage order; an empty table gives an empty sequence |
| `Service.BookService.GetBookById` | src/main/java/com/example/Bookstore/service/BookService.java:23-25 | the stored book with that id, or not-found naming the id |
| `Service.BookService.DeleteBooks` | src/main/java/com/example/Bookstore/service/BookService.java:27-33 | returns the pre-call snapshot and leaves the table empty; an empty snapshot means no `deleteAll` call |
| `Service.BookService.DeleteBookById` | src/main/java/com/example/Bookstore/service/BookService.java:35-39 | a missing id is not-found and changes nothing; otherwise returns the old row at that id's position and removes exactly that row |
| `Service.BookService.AddBook` | src/main/java/com/example/Bookstore/service/BookService.java:41-43 | appends and returns one book with the DTO's fields and an id not previously stored; earlier rows unchanged and the id counter advanced by one |
| `Service.BookService.AddBooks` | src/main/java/com/example/Bookstore/service/BookService.java:45-50 | a null list gives null and leaves the table untouched; otherwise returns and appends the DTOs' books, i-th with the i-th DTO's fields and consecutive fresh ids, the id counter advanced by the list's length |
| `Service.BookService.AddBooksVarargs` | src/main/java/com/example/Bookstore/service/BookService.java:52-54 | the same result and table effect as the list overload on the same DTOs |
| `Service.BookService.UpdateBook` | src/main/java/com/example/Bookstore/service/BookService.java:56-65 | a null DTO gives null and leaves the table and write log unchanged, even for an id that is not stored; a missing id is not-found and changes nothing; otherwise the row keeps its id and position and takes the DTO's fields, and the table size and other rows stay the same |
| `Service.AddThenGetById` | src/test/java/com/example/Bookstore/service/BookServiceTest.java:142-160 | a client adding a book and then fetching its id gets that book, with the DTO's fields |
| `Validation.TrimNonEmpty` | src/main/java/com/example/Bookstore/payload/BookDTO.java:12 | a string is not blank after trimming exactly when some character is not whitespace |
| `Validation.NotBlank` | src/main/java/com/example/Bookstore/payload/BookDTO.java:12 | `@NotBlank` (also on the author, line 17): holds exactly when the value is non-null and some character is above U+0020, so blank means null or only characters up to U+0020 |
| `Validation.SizeWithin` | src/main/java/com/example/Bookstore/payload/BookDTO.java:13 | defined as `@Size(min, max)` (also on the author, line 18): null passes; otherwise the length lies within the inclusive bounds; `FieldViolations` and `Violations` are stated against it |
| `Validation.FieldViolations` | src/main/java/com/example/Bookstore/payload/BookDTO.java:12-20 | one error per violated constraint, all naming the field; the blank error is present exactly when the value is blank, and the size error "size must be between min and max" exactly when the length is out of bounds |
| `Validation.Violations` | src/main/java/com/example/Bookstore/payload/BookDTO.java:10-24 | the DTO's field errors: exactly one per broken constraint (the count is the number of the four constraints broken), every error names title or author, title errors come before author errors, and each constraint's default-message error is present exactly when it is broken; price adds none |
| `Validation.ValidIff` | src/main/java/com/example/Bookstore/payload/BookDTO.java:10-24 | no field errors exactly when the title is non-null, non-blank and 10–30 long and the author non-null, non-blank and 5–15 long |
| `Validation.NullBreaksOnlyNotBlank` | src/main/java/com/example/Bookstore/payload/BookDTO.java:12-13 | a null field breaks only `@NotBlank` |
| `Validation.EmptyBreaksBoth` | src/main/java/com/example/Bookstore/payload/BookDTO.java:17-18 | the empty string breaks `@NotBlank` and `@Size` |
| `Validation.SpacesBreakOnlyNotBlank` | src/main/java/com/example/Bookstore/payload/BookDTO.java:12-13 | ten spaces break only `@NotBlank` on the title |
| `Validation.PriceUnconstrained` | src/main/java/com/example/Bookstore/payload/BookDTO.java:22-23 | the price never changes the field errors |
| `Validation.ShortTitleReported` | src/main/java/com/example/Bookstore/payload/BookDTO.java:13 | a title under ten characters yields the title's size error |
| `ErrorHandler.RemoveUri` | src/main/java/com/example/Bookstore/exception/GlobalRestExceptionHandler.java:30 | defined as `String.replace`'s left-to-right, non-overlapping removal; ensures the result is shorter by a multiple of four |
| `ErrorHandler.RemoveUriWithoutMarker` | src/main/java/com/example/Bookstore/exception/GlobalRestExceptionHandler.java:55 | a description without "uri=" is kept as it is |
| `ErrorHandler.RequestPath` | src/main/java/com/example/Bookstore/exception/GlobalRestExceptionHandler.java:75 | the description "uri=" + request URI yields the request URI as path |
| `ErrorHandler.RemovalCanLeaveMarker` | src/main/java/com/example/Bookstore/exception/GlobalRestExceptionHandler.java:30 | a single pass can leave a "uri=" behind ("uriuri==" becomes "uri=") |
| `ErrorHandler.FormatFieldErrors` | src/main/java/com/example/Bookstore/exception/GlobalRestExceptionHandler.java:45-48 | one line per field error, in order, made of the field, ": " and the message |
| `ErrorHandler.HandleBookNotFound` | src/main/java/com/example/Bookstore/exception/GlobalRestExceptionHandler.java:22-34 | 404 "Not Found", the exception's message, stripped path, no validation list |
| `ErrorHandler.HandleMethodArgumentNotValid` | src/main/java/com/example/Bookstore/exception/GlobalRestExceptionHandler.java:42-59 | 400 "Bad Request", "Validation failed", stripped path, the formatted field errors |
| `ErrorHandler.HandleAllExceptions` | src/main/java/com/example/Bookstore/exception/GlobalRestExceptionHandler.java:66-79 | 500 "Internal Server Error", the error's own message, stripped path, no validation list |
| `ErrorHandler.Handle` | src/main/java/com/example/Bookstore/exception/GlobalRestExceptionHandler.java:19-85 | the status tells the error kind apart (404 not-found, 400 validation, 500 anything else); only validation failures carry a list; envelope status equals response status |
| `ErrorHandler.NotFoundMessageNamesId` | src/main/java/com/example/Bookstore/exception/GlobalRestExceptionHandler.java:29 | two not-found envelopes with the same message are about the same id |
| `Controller.GetBooks` | src/main/java/com/example/Bookstore/controller/BookController.java:39-44 | 200 with the list exactly when it is non-empty; otherwise 404 with no body |
| `Controller.GetBookById` | src/main/java/com/example/Bookstore/controller/BookController.java:53-55 | 200 with the service's book; not-found goes to the not-found envelope |
| `Controller.DeleteBooks` | src/main/java/com/example/Bookstore/controller/BookController.java:64-69 | 200 with the deleted snapshot exactly when non-empty; otherwise 404 with no body |
| `Controller.DeleteBookById` | src/main/java/com/example/Bookstore/controller/BookController.java:78-80 | 200 with the deleted book; not-found goes to the not-found envelope |
| `Controller.AddBook` | src/main/java/com/example/Bookstore/controller/BookController.java:90-92 | 201 with exactly the saved book |
| `Controller.AddBooks` | src/main/java/com/example/Bookstore/controller/BookController.java:102-104 | 201 with exactly the service's result, null included |
| `Controller.UpdateBook` | src/main/java/com/example/Bookstore/controller/BookController.java:114-116 | 200 with the updated book (null for a null answer); not-found goes to the not-found envelope |
| `Controller.CheckBody` | src/main/java/com/example/Bookstore/controller/BookController.java:90 | the handler is skipped exactly when the DTO has field errors, and then the validation envelope answers |
| `Controller.CheckBodyPassesIff` | src/main/java/com/example/Bookstore/controller/BookController.java:114 | a body reaches the service exactly when title and author are valid |
| `Controller.ShortTitleAnswers400` | src/main/java/com/example/Bookstore/payload/BookDTO.java:12-15 | a title under ten characters is answered 400 with the line "title: size must be between 10 and 30" |
| `Controller.ListStatusOnlyOnEmptiness` | src/main/java/com/example/Bookstore/controller/BookController.java:41-43 | the list status depends only on whether the list is empty |
| `Controller.MissingIdAnswers404` | src/main/java/com/example/Bookstore/controller/BookController.java:53-55 | an id absent from the table is answered 404 with the not-found message for that id |
| `Controller.MissingTwoAnswers404` | src/test/java/com/example/Bookstore/controller/BookControllerTest.java:53-62 | GET of a missing id 2 is answered with the 404 envelope whose message is "Book not found with id: 2" and whose path is the request URI |
| `Controller.TestUriHasNoMarker` | src/test/java/com/example/Bookstore/controller/BookControllerTest.java:58 | the test's request URI has no "uri=" in it |
| `Controller.TestRequestAnswers404` | src/test/java/com/example/Bookstore/controller/BookControllerTest.java:53-62 | the test's own request GET /api/v1/books/2 (description "uri=/api/v1/books/2") on a table without id 2 gets the whole 404 envelope: "Not Found", "Book not found with id: 2", path "/api/v1/books/2", no validation list |
| `Controller.UpdateKeepsPathId` | src/main/java/com/example/Bookstore/controller/BookController.java:114-116 | PUT on a stored id answers 200 with a book carrying the path's id and the DTO's fields |

## Left out

- Spring wiring (`@Autowired`, routing, Swagger and `@ApiResponse` annotations): the service gets its repository through its constructor.
- `SecurityConfig`, `SwaggerConfig`, `HealthController`, `RecommendationServiceHealthChecker` (a network call) and `SeedData` (a start-up call to `addBooks`) are not part of this model.
- `BookRepository` and JPA/Hibernate are not part of this model. `Repository.BookRepository` is a stand-in. Its id sequence is a counter that starts at 1 and has no gaps. Ids are unbounded integers, so the 64-bit `Long` width is not modelled. `findAll` order is modelled as insertion order.
- Storage faults are not produced: the repository stand-in never fails. In the source such a fault propagates to `handleAllExceptions`, which the model represents as `ErrorHandler.Fault.Other`.
- Repository.BookRepository.Save: saving an entity whose id is set but not stored is not modelled; the service never does it.
- `addBook(null)` and null elements in the lists given to either `addBooks`: the result depends on how the unseen repository saves `null`. `Service.BookService.AddBook` takes a non-null DTO. The `addBooks` overloads take sequences of non-null DTOs, and the varargs array itself is never null.
- Service.BookService.UpdateBook: the source sets fields on a managed entity object and then saves it. The model copies a value, so aliasing of that object is not captured.
- Timestamps, logging and JSON serialisation: `ApiError` has no timestamp.
- The fallback `catch` branches of the exception handler are left out. They run only if building the envelope itself throws.
- `BigDecimal`: prices are only copied, so a price is an opaque (unscaled, scale) pair.
- The race between the snapshot and `deleteAll` in `deleteBooks` under concurrent writers is a concurrency matter and is left out.
- Validation.FieldViolations: it fixes an order (title before author, `@NotBlank` before `@Size`) that the validation framework leaves unspecified. The messages are the validator's default English messages. Lengths count characters, while Java counts UTF-16 code units.
- `@NotBlank` follows Hibernate Validator's check: the string must be non-empty after `trim()`, which drops characters up to U+0020. It does not use Unicode's wider whitespace class.
- Validating the elements of the `List<BookDTO>` body of POST /books/all depends on the framework version. It is not modelled: `Controller.AddBooks` maps whatever the service returns.
- Errors that the base `ResponseEntityExceptionHandler` handles by default are not modelled. An example is a missing or unreadable request body. The model sends every error other than not-found and validation failure to `handleAllExceptions`.
