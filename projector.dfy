/**
 * The read-model projector of `GET /books`: the book events, oldest first,
 * folded left to right into a dictionary from book id to the book's current
 * state.
 */
module Projector {
  import opened Wrappers
  import opened BookEvents

  const Available: string := "AVAILABLE"
  const Reserved: string := "RESERVED"

  /**
   * A projected book. `status` is any string, since `PUT /books/:bookId`
   * accepts any value; `reservedBy` is None when the property is absent.
   */
  datatype Book = Book(
    bookId: Id,
    name: Value,
    author: Value,
    isbn: Value,
    publicationDate: Value,
    genre: Value,
    status: string,
    reservedBy: Value)

  /** Every entry carries its own key as its `bookId`. */
  ghost predicate KeyedById(m: map<Id, Book>) {
    forall k :: k in m ==> m[k].bookId == k
  }

  /** The entry for `id`, if there is one. */
  function Entry(m: map<Id, Book>, id: Id): Option<Book> {
    if id in m then Some(m[id]) else None
  }

  /** The ids that some BookAdded event of `es` creates. */
  ghost function AddedIds(es: seq<Event>): set<Id> {
    set i | 0 <= i < |es| && es[i].BookAdded? :: es[i].data.bookId
  }

  /** The entry a BookAdded creates: the payload's fields, status AVAILABLE, no reservation. */
  function Added(d: BookData): (r: Book)
    // the payload is kept whole: it can be read back from the entry
    ensures BookData(r.bookId, r.name, r.author, r.isbn, r.publicationDate, r.genre) == d
    ensures r.status == "AVAILABLE" && r.reservedBy == None
  {
    Book(d.bookId, d.name, d.author, d.isbn, d.publicationDate, d.genre, Available, None)
  }

  /** One step of the fold. */
  function Apply(m: map<Id, Book>, e: Event): (r: map<Id, Book>)
    // only BookAdded creates an entry, and nothing removes one
    ensures r.Keys == if e.BookAdded? then m.Keys + {e.data.bookId} else m.Keys
    // the entries of other books are left as they were
    ensures forall k :: k in m && !e.Concerns(k) ==> r[k] == m[k]
    ensures KeyedById(m) ==> KeyedById(r)
  {
    match e
    case BookAdded(d) => m[d.bookId := Added(d)]
    case BookUpdated(id, name, status) =>
      if id in m then
        var b := m[id];
        var b := if Truthy(name) then b.(name := name) else b;
        var b := if Truthy(status) then b.(status := status.value) else b;
        m[id := b]
      else m
    case BookReserved(id, userId) =>
      if id in m then m[id := m[id].(status := Reserved, reservedBy := userId)] else m
    case BookReturned(id, _) =>
      if id in m then m[id := m[id].(status := Available, reservedBy := None)] else m
    case UserRegistered => m
    case UserProfileUpdated => m
  }

  lemma AddedIdsSnoc(es: seq<Event>)
    requires es != []
    ensures var last := es[|es| - 1];
      AddedIds(es) == AddedIds(es[..|es| - 1]) + if last.BookAdded? then {last.data.bookId} else {}
  {
    var init := es[..|es| - 1];
    forall id | id in AddedIds(es)
      ensures id in AddedIds(init) + if es[|es| - 1].BookAdded? then {es[|es| - 1].data.bookId} else {}
    {
      var i :| 0 <= i < |es| && es[i].BookAdded? && es[i].data.bookId == id;
      if i < |es| - 1 {
        assert init[i] == es[i];
      }
    }
    forall id | id in AddedIds(init) ensures id in AddedIds(es) {
      var i :| 0 <= i < |init| && init[i].BookAdded? && init[i].data.bookId == id;
      assert es[i] == init[i];
    }
  }

  /**
   * The projection of a whole event sequence, starting from the empty
   * dictionary. Its keys are exactly the ids some BookAdded creates.
   */
  function Fold(es: seq<Event>): (r: map<Id, Book>)
    ensures r.Keys == AddedIds(es)
    ensures KeyedById(r)
  {
    if es == [] then map[]
    else
      AddedIdsSnoc(es);
      Apply(Fold(es[..|es| - 1]), es[|es| - 1])
  }

  /**
   * The `forEach` callback of `GET /books`: the entry of the event's book is
   * created, or its fields are assigned and `reservedBy` deleted in place.
   */
  method Step(books: map<Id, Book>, e: Event) returns (r: map<Id, Book>)
    ensures r == Apply(books, e)
  {
    r := books;
    match e {
      case BookAdded(d) =>
        r := r[d.bookId := Added(d)];
      case BookUpdated(id, name, status) =>
        if id in r {
          if Truthy(name) {
            r := r[id := r[id].(name := name)];
          }
          if Truthy(status) {
            r := r[id := r[id].(status := status.value)];
          }
        }
      case BookReserved(id, userId) =>
        if id in r {
          r := r[id := r[id].(status := Reserved)];
          r := r[id := r[id].(reservedBy := userId)];
        }
      case BookReturned(id, _) =>
        if id in r {
          r := r[id := r[id].(status := Available)];
          r := r[id := r[id].(reservedBy := None)];
        }
      case _ =>
    }
  }

  /**
   * The `forEach` loop of `GET /books`: a dictionary created empty and
   * updated event by event, oldest first.
   */
  method Project(events: seq<Event>) returns (books: map<Id, Book>)
    ensures books == Fold(events)
  {
    books := map[];
    for i := 0 to |events|
      invariant books == Fold(events[..i])
    {
      assert events[..i + 1][..i] == events[..i];
      books := Step(books, events[i]);
    }
    assert events[..|events|] == events;
  }

  /**
   * `Object.values` of the dictionary: the listing, as a set since the
   * order of the values is not modelled. No two listed books share an id.
   */
  function Listing(m: map<Id, Book>): (r: set<Book>)
    requires KeyedById(m)
    ensures forall b :: b in r ==> b.bookId in m && m[b.bookId] == b
    ensures forall k :: k in m ==> m[k] in r
    ensures forall b1, b2 :: b1 in r && b2 in r && b1.bookId == b2.bookId ==> b1 == b2
  {
    m.Values
  }
}
