/**
 * `BookService`: the operations the controller calls, each a few calls to the
 * book table. "Not found" is the result `Err(BookNotFoundException(id))`
 * instead of a thrown exception; Java's `null` arguments and results are
 * `None`.
 */
module Service {
  import opened Options
  import opened Model
  import opened BookNotFound
  import opened Store
  import opened Repository

  /** `mapBookDTOToBook`: a new, id-less entity carrying the DTO's fields. */
  function MapToBook(dto: BookDTO): (b: Book)
    ensures b.id.None? && Payload(b) == dto
  {
    Book(None, dto.title, dto.author, dto.price)
  }

  /** The stream `map` of `addBooks`: one new entity per DTO, in order. */
  function MapAll(dtos: seq<BookDTO>): (books: seq<Book>)
    ensures |books| == |dtos|
    ensures forall i :: 0 <= i < |dtos| ==> books[i].id.None? && Payload(books[i]) == dtos[i]
  {
    seq(|dtos|, i requires 0 <= i < |dtos| => MapToBook(dtos[i]))
  }

  /** The three setters `updateBook` applies to the fetched entity; the id stays. */
  function Overwrite(b: Book, dto: BookDTO): (updated: Book)
    ensures updated.id == b.id && Payload(updated) == dto
  {
    b.(title := dto.title, author := dto.author, price := dto.price)
  }

  class BookService {
    const repository: BookRepository

    constructor (repository: BookRepository)
      ensures this.repository == repository
    {
      this.repository := repository;
    }

    /** `getBooks`: every stored book, in storage order; an empty table gives an empty sequence. */
    method GetBooks() returns (books: seq<Book>)
      requires repository.Valid()
      ensures books == repository.rows
    {
      books := repository.FindAll();
    }

    /** `getBookById`: the stored book with that id, or not-found. */
    method GetBookById(id: int) returns (r: Result<Book>)
      requires repository.Valid()
      ensures r == Lookup(repository.rows, id)
      ensures r.Ok? <==> HasId(repository.rows, id)
      ensures r.Ok? ==> r.value in repository.rows && r.value.id == Some(id)
      ensures r.Err? ==> r.error == BookNotFoundException(id)
    {
      var found := repository.FindById(id);
      r := if found.Some? then Ok(found.value) else Err(BookNotFoundException(id));
    }

    /**
     * `deleteBooks`: a snapshot of the table, then `deleteAll` unless the
     * snapshot is empty; returns the snapshot.
     */
    method DeleteBooks() returns (deleted: seq<Book>)
      requires repository.Valid()
      modifies repository
      ensures repository.Valid()
      ensures deleted == old(repository.rows)
      ensures repository.rows == [] && repository.nextId == old(repository.nextId)
      ensures repository.writes == old(repository.writes) + (if deleted == [] then [] else [DeleteAllCall])
    {
      deleted := GetBooks();
      if deleted != [] {
        repository.DeleteAll();
      }
    }

    /**
     * `deleteBookById`: looks the id up first, so a missing id is not-found
     * and nothing is deleted; otherwise removes exactly that row and returns it.
     */
    method DeleteBookById(id: int) returns (r: Result<Book>)
      requires repository.Valid()
      modifies repository
      ensures repository.Valid()
      ensures r == Lookup(old(repository.rows), id)
      ensures r.Err? ==> unchanged(repository)
      ensures r.Ok? ==>
        && var k := IndexOf(old(repository.rows), id).value;
        && r.value == old(repository.rows)[k]
        && repository.rows == old(repository.rows)[..k] + old(repository.rows)[k + 1..]
        && repository.nextId == old(repository.nextId)
        && repository.writes == old(repository.writes) + [DeleteByIdCall(id)]
    {
      r := GetBookById(id);
      if r.Err? {
        return;
      }
      repository.DeleteById(id);
    }

    /**
     * `addBook`: saves the mapped entity; the table assigns it a fresh id and
     * appends it, and the saved book is returned.
     */
    method AddBook(dto: BookDTO) returns (saved: Book)
      requires repository.Valid()
      modifies repository
      ensures repository.Valid()
      ensures saved.id == Some(old(repository.nextId)) && !HasId(old(repository.rows), saved.id.value)
      ensures Payload(saved) == dto
      ensures repository.rows == old(repository.rows) + [saved]
      ensures repository.nextId == old(repository.nextId) + 1
      ensures repository.writes == old(repository.writes) + [SaveCall(MapToBook(dto))]
    {
      saved := repository.Save(MapToBook(dto));
    }

    /**
     * `addBooks(List)`: `null` gives `null` and no write; otherwise one
     * `saveAll` of the mapped entities, which get consecutive fresh ids in
     * input order.
     */
    method AddBooks(dtos: Option<seq<BookDTO>>) returns (saved: Option<seq<Book>>)
      requires repository.Valid()
      modifies repository
      ensures repository.Valid()
      ensures dtos.None? ==> saved.None? && unchanged(repository)
      ensures dtos.Some? ==>
        && saved == Some(Numbered(MapAll(dtos.value), old(repository.nextId)))
        && repository.rows == old(repository.rows) + saved.value
        && repository.nextId == old(repository.nextId) + |dtos.value|
        && repository.writes == old(repository.writes) + [SaveAllCall(MapAll(dtos.value))]
    {
      if dtos.None? {
        return None;
      }
      var books := repository.SaveAll(MapAll(dtos.value));
      saved := Some(books);
    }

    /** `addBooks(BookDTO...)`: the same effect and result as the list overload on the same DTOs. */
    method AddBooksVarargs(dtos: seq<BookDTO>) returns (saved: seq<Book>)
      requires repository.Valid()
      modifies repository
      ensures repository.Valid()
      ensures saved == Numbered(MapAll(dtos), old(repository.nextId))
      ensures repository.rows == old(repository.rows) + saved
      ensures repository.nextId == old(repository.nextId) + |dtos|
      ensures repository.writes == old(repository.writes) + [SaveAllCall(MapAll(dtos))]
    {
      saved := repository.SaveAll(MapAll(dtos));
    }

    /**
     * `updateBook`: a `null` DTO gives `null` without looking the id up; a
     * missing id is not-found; otherwise the stored row keeps its id and
     * position and takes the DTO's title, author and price.
     */
    method UpdateBook(id: int, dto: Option<BookDTO>) returns (r: Result<Option<Book>>)
      requires repository.Valid()
      modifies repository
      ensures repository.Valid()
      ensures dto.None? ==> r == Ok(None) && unchanged(repository)
      ensures dto.Some? && !HasId(old(repository.rows), id) ==>
        r == Err(BookNotFoundException(id)) && unchanged(repository)
      ensures dto.Some? && HasId(old(repository.rows), id) ==>
        && r.Ok? && r.value.Some?
        && var k := IndexOf(old(repository.rows), id).value;
        && r.value.value == Overwrite(old(repository.rows)[k], dto.value)
        && r.value.value.id == Some(id)
        && repository.rows == old(repository.rows)[k := r.value.value]
        && repository.nextId == old(repository.nextId)
        && repository.writes == old(repository.writes) + [SaveCall(r.value.value)]
    {
      if dto.None? {
        return Ok(None);
      }
      var found := GetBookById(id);
      if found.Err? {
        return Err(found.error);
      }
      var updated := Overwrite(found.value, dto.value);
      var saved := repository.Save(updated);
      r := Ok(Some(saved));
    }
  }

  /**
   * A client of the service: adding a book and then looking up the id it was
   * given finds it, with the DTO's title, author and price.
   */
  method AddThenGetById(service: BookService, dto: BookDTO) returns (saved: Book, found: Result<Book>)
    requires service.repository.Valid()
    modifies service.repository
    ensures service.repository.Valid()
    ensures found == Ok(saved) && Payload(saved) == dto
  {
    ghost var rows, nextId := service.repository.rows, service.repository.nextId;
    saved := service.AddBook(dto);
    AddThenGet(rows, nextId, MapToBook(dto));
    found := service.GetBookById(saved.id.value);
  }
}
