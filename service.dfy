/**
 * The command and query handlers of the book service, over an in-memory
 * `books` table, the append-only `events` table and the `book-events`
 * channel. Every database statement and the publish may fail; a boolean
 * parameter says whether it succeeded. There is no transaction: a write that
 * succeeded stays when a later step fails.
 */
module BookService {
  import opened Wrappers
  import opened BookEvents
  import opened Projector
  import ProjectorProperties

  /**
   * A row of the `books` table. INSERT does not set `status`; it is None
   * here until a PUT writes it (the column's default is not part of this
   * model). PUT writes None when the body has no status (SQL NULL).
   */
  datatype BookRow = BookRow(
    bookId: Id,
    name: Value,
    author: Value,
    isbn: Value,
    publicationDate: Value,
    genre: Value,
    status: Value)

  /**
   * The row `POST /books` inserts: the body's fields, with no status. It
   * holds the same payload as the entry the projector creates from the
   * BookAdded event stored beside it.
   */
  function InsertedRow(body: BookData): (r: BookRow)
    ensures r.status == None
    ensures var b := Added(body);
      && r.bookId == b.bookId && r.name == b.name && r.author == b.author
      && r.isbn == b.isbn && r.publicationDate == b.publicationDate && r.genre == b.genre
  {
    BookRow(body.bookId, body.name, body.author, body.isbn, body.publicationDate, body.genre, None)
  }

  /** The reply of a command: 201 with the stored event, or 500 with a message. */
  datatype Reply = Created(message: string, event: StoredEvent) | Failed(error: string)

  /** The reply of a query: 200 with a value, 404, or 500. */
  datatype Fetch<T> = Found(value: T) | NotFound(error: string) | FetchFailed(error: string)

  class Service {
    var books: map<Id, BookRow>
    var events: seq<StoredEvent>
    var published: seq<StoredEvent>

    /**
     * Every stored event has version 1.0, and every published message is a
     * BookAdded event that was stored first.
     */
    ghost predicate Valid()
      reads this`events, this`published
    {
      && (forall i :: 0 <= i < |events| ==> events[i].version == Version)
      && (forall i :: 0 <= i < |published| ==> published[i] in events && published[i].event.BookAdded?)
    }

    /** The books `GET /books` would list from the current log. */
    function Projection(): map<Id, Book>
      reads this`events
    {
      Fold(SelectBookEvents(events))
    }

    constructor ()
      ensures Valid()
      ensures books == map[] && events == [] && published == []
      ensures Projection() == map[]
    {
      books, events, published := map[], [], [];
    }

    /** INSERT INTO events: appends one row. */
    method AppendEvent(ev: StoredEvent)
      requires Valid() && ev.version == Version
      modifies this`events
      ensures Valid()
      ensures events == old(events) + [ev]
      ensures Projection() == if ev.event.IsBookEvent() then Apply(old(Projection()), ev.event) else old(Projection())
    {
      SelectAppended(events, ev);
      ProjectorProperties.FoldSnoc(SelectBookEvents(events), ev.event);
      events := events + [ev];
    }

    /**
     * INSERT INTO books. The table is keyed by `book_id`, so a second row
     * for the same book is refused like any other failed statement.
     */
    method InsertRow(row: BookRow, ok: bool) returns (inserted: bool)
      modifies this`books
      ensures inserted == (ok && row.bookId !in old(books))
      ensures books == if inserted then old(books)[row.bookId := row] else old(books)
    {
      inserted := ok && row.bookId !in books;
      if inserted {
        books := books[row.bookId := row];
      }
    }

    /** Publish a stored event on `book-events`. */
    method Publish(ev: StoredEvent)
      requires Valid() && ev in events && ev.event.BookAdded?
      modifies this`published
      ensures Valid()
      ensures published == old(published) + [ev]
    {
      published := published + [ev];
    }

    /**
     * `POST /books`: insert the row, then store one BookAdded event with
     * version 1.0, then publish it on `book-events`.
     */
    method Create(body: BookData, now: string, rowWritten: bool, eventWritten: bool, publishOk: bool)
      returns (reply: Reply)
      requires Valid()
      modifies this
      ensures Valid()
      ensures var inserted := rowWritten && body.bookId !in old(books);
        books == if inserted then old(books)[body.bookId := InsertedRow(body)] else old(books)
      ensures var stored := rowWritten && body.bookId !in old(books) && eventWritten;
        events == if stored then old(events) + [NewEvent(BookAdded(body), now)] else old(events)
      ensures var stored := rowWritten && body.bookId !in old(books) && eventWritten;
        published == if stored && publishOk then old(published) + [NewEvent(BookAdded(body), now)] else old(published)
      ensures var stored := rowWritten && body.bookId !in old(books) && eventWritten;
        reply == if stored && publishOk
                 then Created("Book created, event stored, and published", NewEvent(BookAdded(body), now))
                 else Failed("Failed to create book")
      ensures var stored := rowWritten && body.bookId !in old(books) && eventWritten;
        Projection() == if stored then Apply(old(Projection()), BookAdded(body)) else old(Projection())
    {
      var ev := NewEvent(BookAdded(body), now);
      var inserted := InsertRow(InsertedRow(body), rowWritten);
      if !inserted {
        return Failed("Failed to create book");
      }
      if !eventWritten {
        return Failed("Failed to create book");
      }
      AppendEvent(ev);
      if !publishOk {
        return Failed("Failed to create book");
      }
      Publish(ev);
      reply := Created("Book created, event stored, and published", ev);
    }

    /**
     * UPDATE books SET name, status WHERE book_id: no row matches an
     * unknown id, and the statement still succeeds.
     */
    method UpdateRow(bookId: Id, name: Value, status: Value)
      modifies this`books
      ensures books == if bookId in old(books)
                       then old(books)[bookId := old(books)[bookId].(name := name, status := status)]
                       else old(books)
    {
      if bookId in books {
        books := books[bookId := books[bookId].(name := name, status := status)];
      }
    }

    /**
     * `PUT /books/:bookId`: overwrite the row's name and status with the
     * body's values, present or not, then store one BookUpdated event.
     */
    method Update(bookId: Id, name: Value, status: Value, now: string, rowWritten: bool, eventWritten: bool)
      returns (reply: Reply)
      requires Valid()
      modifies this
      ensures Valid()
      ensures books == if rowWritten && bookId in old(books)
                       then old(books)[bookId := old(books)[bookId].(name := name, status := status)]
                       else old(books)
      ensures events == if rowWritten && eventWritten
                        then old(events) + [NewEvent(BookUpdated(bookId, name, status), now)]
                        else old(events)
      ensures published == old(published)
      ensures reply == if rowWritten && eventWritten
                       then Created("BookUpdated event stored and book updated", NewEvent(BookUpdated(bookId, name, status), now))
                       else Failed("Failed to update book")
      ensures Projection() == if rowWritten && eventWritten then Apply(old(Projection()), BookUpdated(bookId, name, status)) else old(Projection())
    {
      var ev := NewEvent(BookUpdated(bookId, name, status), now);
      if !rowWritten {
        return Failed("Failed to update book");
      }
      UpdateRow(bookId, name, status);
      if !eventWritten {
        return Failed("Failed to update book");
      }
      AppendEvent(ev);
      reply := Created("BookUpdated event stored and book updated", ev);
    }

    /** `POST /books/:bookId/reserve`: store one BookReserved event; the table is not touched. */
    method Reserve(bookId: Id, userId: Value, now: string, eventWritten: bool) returns (reply: Reply)
      requires Valid()
      modifies this
      ensures Valid()
      ensures books == old(books)
      ensures events == if eventWritten then old(events) + [NewEvent(BookReserved(bookId, userId), now)] else old(events)
      ensures published == old(published)
      ensures reply == if eventWritten
                       then Created("BookReserved event stored", NewEvent(BookReserved(bookId, userId), now))
                       else Failed("Failed to store event")
      ensures Projection() == if eventWritten then Apply(old(Projection()), BookReserved(bookId, userId)) else old(Projection())
    {
      var ev := NewEvent(BookReserved(bookId, userId), now);
      if !eventWritten {
        return Failed("Failed to store event");
      }
      AppendEvent(ev);
      reply := Created("BookReserved event stored", ev);
    }

    /** `POST /books/:bookId/return`: store one BookReturned event; the table is not touched. */
    method Return(bookId: Id, userId: Value, now: string, eventWritten: bool) returns (reply: Reply)
      requires Valid()
      modifies this
      ensures Valid()
      ensures books == old(books)
      ensures events == if eventWritten then old(events) + [NewEvent(BookReturned(bookId, userId), now)] else old(events)
      ensures published == old(published)
      ensures reply == if eventWritten
                       then Created("BookReturned event stored", NewEvent(BookReturned(bookId, userId), now))
                       else Failed("Failed to store event")
      ensures Projection() == if eventWritten then Apply(old(Projection()), BookReturned(bookId, userId)) else old(Projection())
    {
      var ev := NewEvent(BookReturned(bookId, userId), now);
      if !eventWritten {
        return Failed("Failed to store event");
      }
      AppendEvent(ev);
      reply := Created("BookReturned event stored", ev);
    }

    /** `GET /books`: select the book events and project them. */
    method ListBooks(queryOk: bool) returns (r: Fetch<set<Book>>)
      ensures !queryOk ==> r == FetchFailed("Failed to fetch books")
      ensures queryOk ==> r.Found? && r.value == Listing(Projection())
    {
      if !queryOk {
        return FetchFailed("Failed to fetch books");
      }
      var rows := SelectBookEvents(events);
      var books := Project(rows);
      r := Found(Listing(books));
    }

    /** `GET /books/:bookId`: a point lookup in the `books` table. */
    method GetBook(bookId: Id, queryOk: bool) returns (r: Fetch<BookRow>)
      ensures !queryOk ==> r == FetchFailed("Failed to fetch book")
      ensures queryOk && bookId in books ==> r == Found(books[bookId])
      ensures queryOk && bookId !in books ==> r == NotFound("Book not found")
    {
      if !queryOk {
        return FetchFailed("Failed to fetch book");
      }
      if bookId !in books {
        return NotFound("Book not found");
      }
      r := Found(books[bookId]);
    }
  }

  /**
   * The `books` table is not the projection: after a reservation and a PUT
   * without a name, the table has no name and no status, while the listing
   * keeps the name and shows the book RESERVED.
   */
  method TableIsNotTheProjection() {
    var s := new Service();
    var body := BookData("1", Some("A"), None, None, None, None);
    var created := s.Create(body, "t1", true, true, true);
    ghost var afterCreate := s.Projection();
    var reserved := s.Reserve("1", Some("u1"), "t2", true);
    ghost var afterReserve := s.Projection();
    var updated := s.Update("1", None, None, "t3", true, true);
    ProjectorProperties.ReservedOverridesStatus(afterCreate, "1", Some("u1"));
    ProjectorProperties.UpdatedIsPartial(afterReserve, "1", None, None);
    assert s.books["1"].name == None && s.books["1"].status == None;
    assert s.Projection()["1"].name == Some("A");
    assert s.Projection()["1"].status == "RESERVED";
  }
}
