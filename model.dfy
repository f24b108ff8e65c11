/**
 * The values the bookstore passes around: the stored `Book` entity, the
 * `BookDTO` request payload and the `ApiErrorDTO` error envelope. Java's
 * nullable fields are `Option`s.
 */
module Model {
  import opened Options

  /**
   * A `BigDecimal`: an unscaled integer and a scale. The bookstore only copies
   * prices, and Lombok's field-wise equality compares them with
   * `BigDecimal.equals`, which (like this datatype's equality) tells 40.0 from
   * 40.00.
   */
  datatype Decimal = Decimal(unscaled: int, scale: int)

  /** The stored entity. `id` is `None` until storage assigns one. */
  datatype Book = Book(id: Option<int>, title: Option<string>, author: Option<string>, price: Option<Decimal>)

  /** The request payload: a book without identity. */
  datatype BookDTO = BookDTO(title: Option<string>, author: Option<string>, price: Option<Decimal>)

  /** The error envelope; the timestamp is not modelled. */
  datatype ApiError = ApiError(
    status: int,
    error: string,
    message: Option<string>,
    path: string,
    validationErrors: Option<seq<string>>)

  /** The payload fields of a book, read back as a DTO. */
  function Payload(b: Book): BookDTO {
    BookDTO(b.title, b.author, b.price)
  }
}
