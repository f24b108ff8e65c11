/**
 * The book table as a value: a sequence of rows in storage order. These
 * functions specify what the repository's finders and writers do to it and
 * what the service answers; the lemmas say how a lookup sees each change.
 */
module Store {
  import opened Options
  import opened Model
  import opened BookNotFound

  /** A service answer: a value, or the not-found error the source throws. */
  datatype Result<T> = Ok(value: T) | Err(error: BookNotFoundException)

  predicate HasId(rows: seq<Book>, id: int) {
    exists i :: 0 <= i < |rows| && rows[i].id == Some(id)
  }

  predicate UniqueIds(rows: seq<Book>) {
    forall i, j :: 0 <= i < j < |rows| ==> rows[i].id != rows[j].id
  }

  /**
   * What the table keeps true: every row has an id that the id sequence
   * handed out earlier (positive and below `nextId`), and no two rows share one.
   */
  predicate TableInvariant(rows: seq<Book>, nextId: int) {
    && 0 < nextId
    && (forall i :: 0 <= i < |rows| ==> rows[i].id.Some? && 0 < rows[i].id.value < nextId)
    && UniqueIds(rows)
  }

  /** The position of the first row with id `id`, if any. */
  function IndexOf(rows: seq<Book>, id: int): (k: Option<nat>)
    ensures k.None? <==> !HasId(rows, id)
    ensures k.Some? ==> k.value < |rows| && rows[k.value].id == Some(id)
    ensures k.Some? ==> forall j :: 0 <= j < k.value ==> rows[j].id != Some(id)
  {
    if |rows| == 0 then None
    else if rows[0].id == Some(id) then Some(0)
    else match IndexOf(rows[1..], id)
      case None =>
        assert forall i :: 1 <= i < |rows| ==> rows[i] == rows[1..][i - 1];
        None
      case Some(k) => Some(k + 1)
  }

  /** The repository's `findById`. */
  function Find(rows: seq<Book>, id: int): Option<Book> {
    match IndexOf(rows, id)
    case Some(k) => Some(rows[k])
    case None => None
  }

  /** The service's `getBookById`: the found row, or `BookNotFoundException(id)`. */
  function Lookup(rows: seq<Book>, id: int): (r: Result<Book>)
    ensures r.Ok? <==> HasId(rows, id)
    ensures r.Ok? ==> r.value in rows && r.value.id == Some(id)
    ensures r.Err? ==> r.error == BookNotFoundException(id)
  {
    match Find(rows, id)
    case Some(b) => Ok(b)
    case None => Err(BookNotFoundException(id))
  }

  /** The repository's `deleteById`: drops the row with that id; no row, no change. */
  function Without(rows: seq<Book>, id: int): seq<Book> {
    match IndexOf(rows, id)
    case Some(k) => rows[..k] + rows[k + 1..]
    case None => rows
  }

  /** The repository's `save` of an entity that already has a stored id: overwrites that row. */
  function Put(rows: seq<Book>, b: Book): seq<Book>
    requires b.id.Some? && HasId(rows, b.id.value)
  {
    rows[IndexOf(rows, b.id.value).value := b]
  }

  /** The repository's `saveAll` of new entities: ids handed out in order from `first`. */
  function Numbered(books: seq<Book>, first: int): (r: seq<Book>)
    ensures |r| == |books|
    ensures forall i :: 0 <= i < |r| ==> r[i] == books[i].(id := Some(first + i))
  {
    seq(|books|, i requires 0 <= i < |books| => books[i].(id := Some(first + i)))
  }

  /** When ids are unique, the first row with an id is the only one. */
  lemma IndexOfUnique(rows: seq<Book>, k: nat)
    requires UniqueIds(rows) && k < |rows| && rows[k].id.Some?
    ensures IndexOf(rows, rows[k].id.value) == Some(k)
  {
  }

  /** Every stored row is what a lookup of its id answers. */
  lemma LookupStoredRow(rows: seq<Book>, k: nat)
    requires UniqueIds(rows) && k < |rows| && rows[k].id.Some?
    ensures Lookup(rows, rows[k].id.value) == Ok(rows[k])
  {
    IndexOfUnique(rows, k);
  }

  /** Appending a row whose id is not stored: its id now finds it, every other answer is unchanged. */
  lemma LookupAfterAppend(rows: seq<Book>, b: Book, id: int)
    requires b.id.Some? && !HasId(rows, b.id.value)
    ensures Lookup(rows + [b], id) == if b.id == Some(id) then Ok(b) else Lookup(rows, id)
  {
    var rows' := rows + [b];
    if b.id == Some(id) {
      assert rows'[|rows|] == b;
      assert IndexOf(rows', id) == Some(|rows|);
    } else if HasId(rows, id) {
      var k := IndexOf(rows, id).value;
      assert rows'[k] == rows[k];
      assert IndexOf(rows', id) == Some(k);
    } else {
      assert !HasId(rows', id) by {
        forall i | 0 <= i < |rows'|
          ensures rows'[i].id != Some(id)
        {
          if i < |rows| { assert rows'[i] == rows[i]; }
        }
      }
    }
  }

  /** Removing one row of a table with unique ids: the rest keep their order and stay unique. */
  lemma RemoveAt(rows: seq<Book>, k: nat)
    requires UniqueIds(rows) && k < |rows|
    ensures var rows' := rows[..k] + rows[k + 1..];
      && |rows'| == |rows| - 1
      && (forall i :: 0 <= i < |rows'| ==> rows'[i] == rows[if i < k then i else i + 1])
      && UniqueIds(rows')
  {
  }

  /** Deleting one id: that id is gone, every other answer is unchanged. */
  lemma LookupAfterWithout(rows: seq<Book>, id: int, other: int)
    requires UniqueIds(rows)
    ensures Lookup(Without(rows, id), other) == if other == id then Err(BookNotFoundException(id)) else Lookup(rows, other)
  {
    if HasId(rows, id) {
      var k := IndexOf(rows, id).value;
      var rows' := rows[..k] + rows[k + 1..];
      assert Without(rows, id) == rows';
      RemoveAt(rows, k);
      if other == id {
        forall i | 0 <= i < |rows'|
          ensures rows'[i].id != Some(id)
        {
          assert rows'[i] == rows[if i < k then i else i + 1];
        }
      } else if HasId(rows, other) {
        var m := IndexOf(rows, other).value;
        var m' := if m < k then m else m - 1;
        assert rows'[m'] == rows[m];
        LookupStoredRow(rows', m');
        LookupStoredRow(rows, m);
      } else {
        forall i | 0 <= i < |rows'|
          ensures rows'[i].id != Some(other)
        {
          assert rows'[i] == rows[if i < k then i else i + 1];
        }
      }
    }
  }

  /** Overwriting the row of a stored id: that id finds the new row, every other answer is unchanged. */
  lemma LookupAfterPut(rows: seq<Book>, b: Book, id: int)
    requires UniqueIds(rows) && b.id.Some? && HasId(rows, b.id.value)
    ensures Lookup(Put(rows, b), id) == if b.id == Some(id) then Ok(b) else Lookup(rows, id)
  {
    var k := IndexOf(rows, b.id.value).value;
    var rows' := Put(rows, b);
    assert forall i :: 0 <= i < |rows'| && i != k ==> rows'[i] == rows[i];
    assert UniqueIds(rows');
    if b.id == Some(id) {
      LookupStoredRow(rows', k);
    } else if HasId(rows, id) {
      var m := IndexOf(rows, id).value;
      LookupStoredRow(rows, m);
      LookupStoredRow(rows', m);
    } else {
      assert !HasId(rows', id);
    }
  }

  /** Deleting an id keeps the table's invariant. */
  lemma InvariantAfterWithout(rows: seq<Book>, nextId: int, id: int)
    requires TableInvariant(rows, nextId)
    ensures TableInvariant(Without(rows, id), nextId)
  {
    if HasId(rows, id) {
      var k := IndexOf(rows, id).value;
      var rows' := Without(rows, id);
      assert forall i :: 0 <= i < |rows'| ==> rows'[i] == rows[if i < k then i else i + 1];
    }
  }

  /** Overwriting a row with one that has the same id keeps the table's invariant. */
  lemma InvariantAfterPut(rows: seq<Book>, nextId: int, b: Book)
    requires TableInvariant(rows, nextId) && b.id.Some? && HasId(rows, b.id.value)
    ensures TableInvariant(Put(rows, b), nextId)
  {
  }

  /**
   * Saving new entities from the id sequence keeps the table's invariant: the
   * ids handed out are fresh, and pairwise distinct.
   */
  lemma InvariantAfterNumbered(rows: seq<Book>, nextId: int, books: seq<Book>)
    requires TableInvariant(rows, nextId)
    ensures TableInvariant(rows + Numbered(books, nextId), nextId + |books|)
    ensures forall id :: nextId <= id < nextId + |books| ==> !HasId(rows, id)
  {
    var added := Numbered(books, nextId);
    var rows' := rows + added;
    forall i | 0 <= i < |rows'|
      ensures rows'[i].id.Some? && 0 < rows'[i].id.value < nextId + |books|
    {
      if i >= |rows| { assert rows'[i] == added[i - |rows|]; } else { assert rows'[i] == rows[i]; }
    }
    forall i, j | 0 <= i < j < |rows'|
      ensures rows'[i].id != rows'[j].id
    {
      if j >= |rows| {
        assert rows'[j] == added[j - |rows|];
        if i < |rows| { assert rows'[i] == rows[i]; } else { assert rows'[i] == added[i - |rows|]; }
      } else {
        assert rows'[i] == rows[i] && rows'[j] == rows[j];
      }
    }
  }

  /** Saving one new entity under `nextId`, then looking that id up, gives it back unchanged. */
  lemma AddThenGet(rows: seq<Book>, nextId: int, b: Book)
    requires TableInvariant(rows, nextId)
    ensures Lookup(rows + [b.(id := Some(nextId))], nextId) == Ok(b.(id := Some(nextId)))
  {
    LookupAfterAppend(rows, b.(id := Some(nextId)), nextId);
  }
}
