/**
 * The book table behind the service. The source reaches it through a Spring
 * Data `BookRepository` whose code is not part of this model; this class keeps
 * the rows in storage order, the next value of the id sequence, and a log of
 * the write calls made to it (so that "no deletion happened" can be stated).
 */
module Repository {
  import opened Options
  import opened Model
  import opened Store

  /** One write call made to the table. */
  datatype Write = SaveCall(book: Book) | SaveAllCall(books: seq<Book>) | DeleteByIdCall(id: int) | DeleteAllCall

  class BookRepository {
    var rows: seq<Book>
    var nextId: int
    ghost var writes: seq<Write>

    ghost predicate Valid()
      reads this
    {
      TableInvariant(rows, nextId)
    }

    /** An empty table whose id sequence starts at 1. */
    constructor ()
      ensures Valid() && rows == [] && nextId == 1 && writes == []
    {
      rows := [];
      nextId := 1;
      writes := [];
    }

    method FindAll() returns (books: seq<Book>)
      requires Valid()
      ensures books == rows
    {
      books := rows;
    }

    method FindById(id: int) returns (found: Option<Book>)
      requires Valid()
      ensures found == Find(rows, id)
      ensures found.Some? <==> HasId(rows, id)
      ensures found.Some? ==> found.value in rows && found.value.id == Some(id)
    {
      found := Find(rows, id);
    }

    /**
     * `save`: an entity without an id is inserted under the next id of the
     * sequence; an entity with a stored id overwrites that row.
     */
    method Save(book: Book) returns (saved: Book)
      requires Valid()
      requires book.id.None? || HasId(rows, book.id.value)
      modifies this
      ensures Valid()
      ensures writes == old(writes) + [SaveCall(book)]
      ensures book.id.None? ==>
        && saved == book.(id := Some(old(nextId)))
        && rows == old(rows) + [saved]
        && nextId == old(nextId) + 1
      ensures book.id.Some? ==> saved == book && rows == Put(old(rows), book) && nextId == old(nextId)
    {
      if book.id.None? {
        saved := book.(id := Some(nextId));
        InvariantAfterNumbered(rows, nextId, [book]);
        assert Numbered([book], nextId) == [saved];
        rows := rows + [saved];
        nextId := nextId + 1;
      } else {
        saved := book;
        InvariantAfterPut(rows, nextId, book);
        rows := Put(rows, book);
      }
      writes := writes + [SaveCall(book)];
    }

    /** `saveAll` of new entities: each gets the next id of the sequence, in order. */
    method SaveAll(books: seq<Book>) returns (saved: seq<Book>)
      requires Valid()
      requires forall i :: 0 <= i < |books| ==> books[i].id.None?
      modifies this
      ensures Valid()
      ensures writes == old(writes) + [SaveAllCall(books)]
      ensures saved == Numbered(books, old(nextId))
      ensures rows == old(rows) + saved
      ensures nextId == old(nextId) + |books|
    {
      saved := Numbered(books, nextId);
      InvariantAfterNumbered(rows, nextId, books);
      rows := rows + saved;
      nextId := nextId + |books|;
      writes := writes + [SaveAllCall(books)];
    }

    /** `deleteById`: drops the row with that id; an absent id changes nothing. */
    method DeleteById(id: int)
      requires Valid()
      modifies this
      ensures Valid()
      ensures writes == old(writes) + [DeleteByIdCall(id)]
      ensures rows == Without(old(rows), id) && nextId == old(nextId)
    {
      InvariantAfterWithout(rows, nextId, id);
      rows := Without(rows, id);
      writes := writes + [DeleteByIdCall(id)];
    }

    /** `deleteAll`: empties the table; the id sequence goes on. */
    method DeleteAll()
      requires Valid()
      modifies this
      ensures Valid()
      ensures writes == old(writes) + [DeleteAllCall]
      ensures rows == [] && nextId == old(nextId)
    {
      rows := [];
      writes := writes + [DeleteAllCall];
    }
  }
}
