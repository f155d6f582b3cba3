/**
 * The events of the book service's append-only `events` table.
 *
 * A row of the table has the columns `event_type`, `version`, `timestamp`
 * and `data`; the JSON payload in `data` has one shape per event type, so
 * the type and the payload together are one constructor of `Event`.
 */
module BookEvents {
  import opened Wrappers

  /** A book identifier, used as a key of a JavaScript object (so always a string). */
  type Id = string

  /** A field of a JSON request body: absent (undefined) or a string. */
  type Value = Option<string>

  /** JavaScript truthiness of a field: present and not the empty string. */
  predicate Truthy(v: Value) {
    v.Some? && v.value != ""
  }

  /** The body of `POST /books`, which is also the payload of BookAdded. */
  datatype BookData = BookData(
    bookId: Id,
    name: Value,
    author: Value,
    isbn: Value,
    publicationDate: Value,
    genre: Value)

  /** One constructor per event type in the `events` table, which the user service also writes. */
  datatype Event =
    | BookAdded(data: BookData)
    | BookUpdated(bookId: Id, name: Value, status: Value)
    | BookReserved(bookId: Id, userId: Value)
    | BookReturned(bookId: Id, userId: Value)
      // written by the user service; their payloads are not part of this model
    | UserRegistered
    | UserProfileUpdated
  {
    /** The `event_type` column. */
    function TypeName(): string {
      match this
      case BookAdded(_) => "BookAdded"
      case BookUpdated(_, _, _) => "BookUpdated"
      case BookReserved(_, _) => "BookReserved"
      case BookReturned(_, _) => "BookReturned"
      case UserRegistered => "UserRegistered"
      case UserProfileUpdated => "UserProfileUpdated"
    }

    /** One of the four book types; `TypeNameIdentifiesKind` ties them to their strings. */
    predicate IsBookEvent() {
      !UserRegistered? && !UserProfileUpdated?
    }

    /** The book an event is about. */
    function Subject(): Id
      requires IsBookEvent()
    {
      if BookAdded? then data.bookId else bookId
    }

    /** True when this event is about book `id`. */
    predicate Concerns(id: Id) {
      IsBookEvent() && Subject() == id
    }
  }

  /** The `event_type` values the book listing selects. */
  const BookEventTypes: set<string> := {"BookAdded", "BookUpdated", "BookReserved", "BookReturned"}

  /**
   * The type string identifies the constructor, so the fold's tests of
   * `event_type` against a string are tests of the constructor, and the
   * four selected strings are exactly the four book constructors.
   */
  lemma TypeNameIdentifiesKind(e1: Event, e2: Event)
    ensures e1.TypeName() == e2.TypeName() <==>
      (e1.BookAdded? && e2.BookAdded?) || (e1.BookUpdated? && e2.BookUpdated?)
      || (e1.BookReserved? && e2.BookReserved?) || (e1.BookReturned? && e2.BookReturned?)
      || (e1.UserRegistered? && e2.UserRegistered?) || (e1.UserProfileUpdated? && e2.UserProfileUpdated?)
    ensures e1.IsBookEvent() <==> e1.TypeName() in BookEventTypes
  {
  }

  /** Every event the book service writes has this version. */
  const Version: string := "1.0"

  /** A row of the `events` table. */
  datatype StoredEvent = StoredEvent(version: string, timestamp: string, event: Event)

  /**
   * The event literal a handler builds: version 1.0, stamped with the
   * handler's clock reading `now`.
   */
  function NewEvent(e: Event, now: string): (r: StoredEvent)
    ensures r.version == "1.0" && r.timestamp == now && r.event == e
  {
    StoredEvent(Version, now, e)
  }

  /**
   * The book listing's query: the rows whose type is one of the four book
   * types, in log order (the log is taken to be in timestamp order).
   */
  function SelectBookEvents(log: seq<StoredEvent>): (r: seq<Event>)
    ensures |r| <= |log|
    ensures forall e :: e in r ==> e.IsBookEvent()
    ensures forall i :: 0 <= i < |log| && log[i].event.IsBookEvent() ==> log[i].event in r
  {
    if log == [] then []
    else
      var rest := SelectBookEvents(log[..|log| - 1]);
      var last := log[|log| - 1].event;
      if last.IsBookEvent() then rest + [last] else rest
  }

  /** The listing selects a handler's event exactly when it is a book event. */
  lemma NewEventSelected(e: Event, now: string)
    ensures SelectBookEvents([NewEvent(e, now)]) == if e.IsBookEvent() then [e] else []
  {
    var log := [NewEvent(e, now)];
    assert log[..|log| - 1] == [];
  }

  /** Appending a row extends the listing's selection by its event, when that is a book event. */
  lemma SelectAppended(log: seq<StoredEvent>, ev: StoredEvent)
    ensures SelectBookEvents(log + [ev])
         == SelectBookEvents(log) + if ev.event.IsBookEvent() then [ev.event] else []
  {
    var all := log + [ev];
    assert all[..|all| - 1] == log;
  }
}
