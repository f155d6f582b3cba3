/**
 * What the projector of `GET /books` guarantees: the rule of each event
 * type, the independence of books from one another, and whole-log facts.
 */
module ProjectorProperties {
  import opened Wrappers
  import opened BookEvents
  import opened Projector

  // ---------------------------------------------------------------------
  // The rule of each event type
  // ---------------------------------------------------------------------

  /**
   * BookAdded sets its book to exactly the payload's fields with status
   * AVAILABLE, replacing any earlier entry, reservation included.
   */
  lemma AddedReplacesEntry(m: map<Id, Book>, d: BookData)
    ensures var r := Apply(m, BookAdded(d));
      && d.bookId in r
      && r[d.bookId] == Book(d.bookId, d.name, d.author, d.isbn, d.publicationDate, d.genre, "AVAILABLE", None)
  {
  }

  /** BookUpdated, BookReserved and BookReturned for a book with no entry change nothing. */
  lemma UnknownBookIgnored(m: map<Id, Book>, e: Event)
    requires !e.BookAdded?
    requires e.IsBookEvent() ==> e.Subject() !in m
    ensures Apply(m, e) == m
  {
  }

  /**
   * BookUpdated overwrites the name only with a non-empty name and the
   * status only with a non-empty status; every other field is kept.
   */
  lemma UpdatedIsPartial(m: map<Id, Book>, id: Id, name: Value, status: Value)
    requires id in m
    ensures var r := Apply(m, BookUpdated(id, name, status));
      && id in r
      && r[id].name == (if Truthy(name) then name else m[id].name)
      && r[id].status == (if Truthy(status) then status.value else m[id].status)
      && r[id].(name := m[id].name, status := m[id].status) == m[id]
  {
  }

  /** BookReserved forces RESERVED and records the user, whatever the prior status. */
  lemma ReservedOverridesStatus(m: map<Id, Book>, id: Id, userId: Value)
    requires id in m
    ensures var r := Apply(m, BookReserved(id, userId));
      id in r && r[id] == m[id].(status := "RESERVED", reservedBy := userId)
  {
  }

  /**
   * BookReturned forces AVAILABLE and removes the reservation, whoever
   * returns the book and whoever had reserved it.
   */
  lemma ReturnedClearsReservation(m: map<Id, Book>, id: Id, userId: Value)
    requires id in m
    ensures var r := Apply(m, BookReturned(id, userId));
      id in r && r[id] == m[id].(status := "AVAILABLE", reservedBy := None)
  {
  }

  // ---------------------------------------------------------------------
  // Books are projected independently of one another
  // ---------------------------------------------------------------------

  /** The events of `es` about book `id`, in order. */
  function EventsFor(es: seq<Event>, id: Id): (r: seq<Event>)
    ensures |r| <= |es|
    ensures forall e :: e in r ==> e in es && e.Concerns(id)
  {
    if es == [] then []
    else
      var last := es[|es| - 1];
      EventsFor(es[..|es| - 1], id) + if last.Concerns(id) then [last] else []
  }

  /** Folding one more event is one more step. */
  lemma FoldSnoc(es: seq<Event>, e: Event)
    ensures Fold(es + [e]) == Apply(Fold(es), e)
  {
    var all := es + [e];
    assert all[..|all| - 1] == es;
  }

  /** The entry of a book after one event depends only on its entry before. */
  lemma ApplyIsLocal(m1: map<Id, Book>, m2: map<Id, Book>, e: Event, id: Id)
    requires Entry(m1, id) == Entry(m2, id)
    ensures Entry(Apply(m1, e), id) == Entry(Apply(m2, e), id)
  {
  }

  /** An event about another book leaves the entry of `id` alone. */
  lemma ApplyElsewhere(m: map<Id, Book>, e: Event, id: Id)
    requires !e.Concerns(id)
    ensures Entry(Apply(m, e), id) == Entry(m, id)
  {
  }

  /** A book's projected entry is the projection of its own events alone. */
  lemma {:induction false} FoldIsPerBook(es: seq<Event>, id: Id)
    ensures Entry(Fold(es), id) == Entry(Fold(EventsFor(es, id)), id)
  {
    if es != [] {
      var init, last := es[..|es| - 1], es[|es| - 1];
      assert es == init + [last];
      var mine := EventsFor(init, id);
      FoldIsPerBook(init, id);
      FoldSnoc(init, last);
      if last.Concerns(id) {
        assert EventsFor(es, id) == mine + [last];
        FoldSnoc(mine, last);
        ApplyIsLocal(Fold(init), Fold(mine), last, id);
      } else {
        assert EventsFor(es, id) == mine;
        ApplyElsewhere(Fold(init), last, id);
      }
    }
  }

  /** After a BookAdded, the book's entry is the one the event creates. */
  lemma FoldEndingInAdded(before: seq<Event>, d: BookData)
    ensures Entry(Fold(before + [BookAdded(d)]), d.bookId) == Some(Added(d))
  {
    FoldSnoc(before, BookAdded(d));
  }

  /** Two histories that agree on a book still agree after one more event. */
  lemma FoldAgreementExtends(es1: seq<Event>, es2: seq<Event>, e: Event, id: Id)
    requires Entry(Fold(es1), id) == Entry(Fold(es2), id)
    ensures Entry(Fold(es1 + [e]), id) == Entry(Fold(es2 + [e]), id)
  {
    FoldSnoc(es1, e);
    FoldSnoc(es2, e);
    ApplyIsLocal(Fold(es1), Fold(es2), e, id);
  }

  /** Appending a non-empty suffix is appending its front, then its last event. */
  lemma AppendSplitsLast(es: seq<Event>, after: seq<Event>)
    requires after != []
    ensures es + after == (es + after[..|after| - 1]) + [after[|after| - 1]]
  {
    assert after == after[..|after| - 1] + [after[|after| - 1]];
  }

  /** The step of `FoldAgreementPersists`: agreement before the last further event carries over it. */
  lemma FoldAgreementAppend(es1: seq<Event>, es2: seq<Event>, after: seq<Event>, id: Id)
    requires after != []
    requires Entry(Fold(es1 + after[..|after| - 1]), id) == Entry(Fold(es2 + after[..|after| - 1]), id)
    ensures Entry(Fold(es1 + after), id) == Entry(Fold(es2 + after), id)
  {
    AppendSplitsLast(es1, after);
    AppendSplitsLast(es2, after);
    FoldAgreementExtends(es1 + after[..|after| - 1], es2 + after[..|after| - 1], after[|after| - 1], id);
  }

  /** Two histories that agree on a book still agree after the same further events. */
  lemma {:induction false} FoldAgreementPersists(es1: seq<Event>, es2: seq<Event>, after: seq<Event>, id: Id)
    requires Entry(Fold(es1), id) == Entry(Fold(es2), id)
    ensures Entry(Fold(es1 + after), id) == Entry(Fold(es2 + after), id)
  {
    if after == [] {
      assert es1 + after == es1 && es2 + after == es2;
    } else {
      FoldAgreementPersists(es1, es2, after[..|after| - 1], id);
      FoldAgreementAppend(es1, es2, after, id);
    }
  }

  /**
   * Only the last BookAdded for a book matters: everything that happened to
   * the book before it is forgotten.
   */
  lemma AddedForgetsHistory(before: seq<Event>, d: BookData, after: seq<Event>)
    ensures Entry(Fold(before + [BookAdded(d)] + after), d.bookId)
         == Entry(Fold([BookAdded(d)] + after), d.bookId)
  {
    var added := BookAdded(d);
    var with, alone := before + [added], [added];
    FoldEndingInAdded(before, d);
    FoldEndingInAdded([], d);
    assert [] + [added] == alone;
    FoldAgreementPersists(with, alone, after, d.bookId);
  }

  // ---------------------------------------------------------------------
  // Whole logs
  // ---------------------------------------------------------------------

  /** With no BookAdded (the empty log included), the projection is empty. */
  lemma FoldWithoutAddedIsEmpty(es: seq<Event>)
    requires forall i :: 0 <= i < |es| ==> !es[i].BookAdded?
    ensures Fold(es) == map[]
  {
  }

  /** The events of a run of rows of the `events` table. */
  function EventsOf(log: seq<StoredEvent>): (r: seq<Event>)
    ensures |r| == |log| && forall i :: 0 <= i < |log| ==> r[i] == log[i].event
  {
    if log == [] then []
    else EventsOf(log[..|log| - 1]) + [log[|log| - 1].event]
  }

  /** Appending a row appends its event. */
  lemma EventsOfAppended(log: seq<StoredEvent>, ev: StoredEvent)
    ensures EventsOf(log + [ev]) == EventsOf(log) + [ev.event]
  {
    var all := log + [ev];
    assert all[..|all| - 1] == log;
  }

  /** A non-empty log is its front followed by its last row. */
  lemma LogSplitsLast(log: seq<StoredEvent>)
    requires log != []
    ensures log == log[..|log| - 1] + [log[|log| - 1]]
  {
  }

  /** The step of `SelectionKeepsProjection`: one more row of the log. */
  lemma SelectionStep(init: seq<StoredEvent>, ev: StoredEvent)
    requires Fold(SelectBookEvents(init)) == Fold(EventsOf(init))
    ensures Fold(SelectBookEvents(init + [ev])) == Fold(EventsOf(init + [ev]))
  {
    SelectAppended(init, ev);
    EventsOfAppended(init, ev);
    FoldSnoc(EventsOf(init), ev.event);
    if ev.event.IsBookEvent() {
      FoldSnoc(SelectBookEvents(init), ev.event);
    } else {
      UnknownBookIgnored(Fold(EventsOf(init)), ev.event);
    }
  }

  /**
   * Selecting the four book event types first does not change the
   * projection: the fold ignores every other type anyway.
   */
  lemma {:induction false} SelectionKeepsProjection(log: seq<StoredEvent>)
    ensures Fold(SelectBookEvents(log)) == Fold(EventsOf(log))
  {
    if log != [] {
      var init, ev := log[..|log| - 1], log[|log| - 1];
      SelectionKeepsProjection(init);
      SelectionStep(init, ev);
      LogSplitsLast(log);
    }
  }

  /** The listing has one row per book ever added, and no more. */
  lemma ListingHasOneRowPerAddedBook(es: seq<Event>)
    ensures (set b | b in Listing(Fold(es)) :: b.bookId) == AddedIds(es)
  {
    var m := Fold(es);
    forall id | id in AddedIds(es)
      ensures id in set b | b in Listing(m) :: b.bookId
    {
      assert m[id] in Listing(m);
    }
  }

  /** The intended reservation state: AVAILABLE or RESERVED, with a `reservedBy` only while RESERVED. */
  ghost predicate ReservationConsistent(b: Book) {
    && (b.status == "AVAILABLE" || b.status == "RESERVED")
    && (b.reservedBy.Some? ==> b.status == "RESERVED")
  }

  /**
   * Without BookUpdated events, every book is AVAILABLE or RESERVED and
   * carries a `reservedBy` only while RESERVED.
   */
  lemma {:induction false} WithoutUpdatesReservationsAreConsistent(es: seq<Event>)
    requires forall i :: 0 <= i < |es| ==> !es[i].BookUpdated?
    ensures forall id :: id in Fold(es) ==> ReservationConsistent(Fold(es)[id])
  {
    if es != [] {
      WithoutUpdatesReservationsAreConsistent(es[..|es| - 1]);
    }
  }

  // ---------------------------------------------------------------------
  // Concrete event histories
  // ---------------------------------------------------------------------

  /**
   * Added, Updated (new name A2), Reserved by u1, Returned by u1: the book
   * ends AVAILABLE, renamed, with no reservation.
   */
  lemma ReserveThenReturnScenario()
    ensures var d := BookData("1", Some("A"), Some("X"), Some(""), Some(""), Some(""));
      var es := [BookAdded(d), BookUpdated("1", Some("A2"), Some("AVAILABLE")),
                 BookReserved("1", Some("u1")), BookReturned("1", Some("u1"))];
      Fold(es) == map["1" := Book("1", Some("A2"), Some("X"), Some(""), Some(""), Some(""), "AVAILABLE", None)]
  {
    var d := BookData("1", Some("A"), Some("X"), Some(""), Some(""), Some(""));
    var a, u := BookAdded(d), BookUpdated("1", Some("A2"), Some("AVAILABLE"));
    var r, t := BookReserved("1", Some("u1")), BookReturned("1", Some("u1"));
    var s0: seq<Event> := [];
    var s1 := s0 + [a];
    var s2 := s1 + [u];
    var s3 := s2 + [r];
    FoldSnoc(s0, a);
    FoldSnoc(s1, u);
    FoldSnoc(s2, r);
    FoldSnoc(s3, t);
    assert s3 + [t] == [a, u, r, t];
  }

  /** The fold is order-sensitive: BookAdded resets a reservation made before it. */
  lemma OrderMatters(d: BookData, userId: Value)
    ensures var es := [BookReserved(d.bookId, userId), BookAdded(d)];
      d.bookId in Fold(es) && Fold(es)[d.bookId].status == "AVAILABLE"
    ensures var es := [BookAdded(d), BookReserved(d.bookId, userId)];
      d.bookId in Fold(es) && Fold(es)[d.bookId].status == "RESERVED"
  {
    var a, r := BookAdded(d), BookReserved(d.bookId, userId);
    var s0: seq<Event> := [];
    var reservedFirst, addedFirst := s0 + [r], s0 + [a];
    FoldSnoc(s0, r);
    FoldSnoc(reservedFirst, a);
    assert reservedFirst + [a] == [r, a];
    FoldSnoc(s0, a);
    FoldSnoc(addedFirst, r);
    assert addedFirst + [r] == [a, r];
  }

  /**
   * A BookUpdated that sets the status to AVAILABLE keeps the reservation:
   * the projected book is AVAILABLE and still has a `reservedBy`.
   */
  lemma UpdateKeepsStaleReservation(d: BookData, userId: string)
    ensures var es := [BookAdded(d), BookReserved(d.bookId, Some(userId)),
                       BookUpdated(d.bookId, None, Some("AVAILABLE"))];
      && d.bookId in Fold(es)
      && Fold(es)[d.bookId].status == "AVAILABLE"
      && Fold(es)[d.bookId].reservedBy == Some(userId)
      && !ReservationConsistent(Fold(es)[d.bookId])
  {
    var a, r := BookAdded(d), BookReserved(d.bookId, Some(userId));
    var u := BookUpdated(d.bookId, None, Some("AVAILABLE"));
    var s0: seq<Event> := [];
    var s1 := s0 + [a];
    var s2 := s1 + [r];
    FoldSnoc(s0, a);
    FoldSnoc(s1, r);
    FoldSnoc(s2, u);
    assert s2 + [u] == [a, r, u];
  }
}
