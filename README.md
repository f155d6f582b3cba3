# Book service event-log projector, in Dafny

This project models the core of the book service of a small book-exchange
system. The service keeps a `books` table and an append-only `events` table
shared with the user service, whose UserRegistered and UserProfileUpdated
rows the listing filters out. Its commands (create, update, reserve and return
a book) each store one event. `GET /books` does not read the `books` table.
It selects the four book event types from the log, oldest first, and folds
them into a dictionary from book id to current book state. That fold is
the read-model projector, and it is the centre of the model.

Files and modules:

- `wrappers.dfy` (`Wrappers`): `Option`.
- `events.dfy` (`BookEvents`): event payloads, one `Event` constructor per
  event type, stored rows, and the `GET /books` selection of book events.
- `projector.dfy` (`Projector`): the projected `Book`. It holds the pure
  fold `Apply`/`Fold`, the imperative `forEach` callback `Step`, the loop
  `Project` proved equal to `Fold`, and the `Object.values` listing.
- `projector_properties.dfy` (`ProjectorProperties`): the rule of each event
  type, per-book independence, "last BookAdded wins", whole-log facts and
  the concrete histories of the tests.
- `service.dfy` (`BookService`): the handlers as a class over the `books`
  table, the `events` log and the `book-events` channel. Each database
  statement and the publish takes a flag saying whether it succeeded.
  Writes that succeeded stay when a later step fails, because there is no
  transaction. Every command's contract says how it changes the projection.

Modelling choices:

- A book id is one `string` type. JavaScript coerces the numeric body
  `bookId` and the string route `bookId` to the same object key.
- A JSON body field is `Option<string>`, and `None` stands for undefined.
  "Truthy" means present and non-empty.
- The fold's dictionary holds datatype values. Each BookAdded spreads a
  fresh object, so no two entries alias. Assigning a field in place is a
  map update.

Behaviour of the code that an event-sourced design might lead one to expect otherwise (the model follows the code):

- `POST /books` takes `bookId` from the request body. The store does not
  assign it.
- The `POST /books` reply is `{message, event}` with no `book` member.
- Reserve and return store an event and never touch the `books` table.
- PUT writes name and status to the table unconditionally. BookUpdated
  overwrites the projected status only with a non-empty value, not with any
  defined value.
- So the `books` table is not a cache of the fold.
  `BookService.TableIsNotTheProjection` shows a history where the two
  differ.
- A BookUpdated that sets status AVAILABLE keeps `reservedBy`. So
  "reservedBy only while RESERVED" holds only for logs with no BookUpdated.
  `WithoutUpdatesReservationsAreConsistent` and
  `UpdateKeepsStaleReservation` state both halves.

## Model

| member | source | states |
|---|---|---|
| `BookEvents.TypeNameIdentifiesKind` | book-service/index.js:124-139 | two events have the same `event_type` string exactly when they are the same kind, and an event is a book event exactly when its type is one of the four strings "BookAdded", "BookUpdated", "BookReserved", "BookReturned" |
| `BookEvents.NewEvent` | book-service/index.js:22-27 | the event literal a handler builds carries version "1.0", the handler's clock reading and the given event (also built at index.js:52-57, 80-85, 102-107) |
| `BookEvents.NewEventSelected` | book-service/index.js:123-125 | the listing's query selects a handler's event exactly when it is one of the four book event types |
| `BookEvents.SelectBookEvents` | book-service/index.js:123-125 | the selection holds only the four book event types, keeps every book event of the log, and is no longer than the log |
| `BookEvents.SelectAppended` | book-service/index.js:123-125 | appending a row to the log extends the selection by that row's event exactly when it is a book event |
| `Projector.Added` | book-service/index.js:130 | the entry a BookAdded creates keeps the whole payload (it can be read back unchanged), is AVAILABLE and has no `reservedBy` |
| `Projector.Apply` | book-service/index.js:127-141 | one event adds a key only when it is a BookAdded (for its own id) and never removes one; entries of other books are unchanged; every entry stays keyed by its own `bookId` |
| `Projector.Fold` | book-service/index.js:126-141 | folding from the empty dictionary yields exactly the ids of the BookAdded events as keys (so an empty log gives an empty result), each entry carrying its own key as `bookId` |
| `Projector.Step` | book-service/index.js:127-140 | the in-place `forEach` callback (field assignments, `delete reservedBy`) computes exactly one fold step |
| `Projector.Project` | book-service/index.js:126-141 | the loop that fills an empty dictionary event by event returns exactly the fold of the whole sequence |
| `Projector.Listing` | book-service/index.js:142 | `Object.values` lists every entry, only entries, and no two listed books share an id |
| `ProjectorProperties.AddedReplacesEntry` | book-service/index.js:129-130 | BookAdded sets its book to exactly the payload fields with status AVAILABLE and no `reservedBy`, whatever was there before |
| `ProjectorProperties.UnknownBookIgnored` | book-service/index.js:131-139 | BookUpdated, BookReserved, BookReturned (and non-book events) for an id with no entry leave the whole dictionary unchanged |
| `ProjectorProperties.UpdatedIsPartial` | book-service/index.js:131-133 | BookUpdated changes the name only to a non-empty name and the status only to a non-empty status; bookId, author, isbn, publicationDate, genre and reservedBy are untouched |
| `ProjectorProperties.ReservedOverridesStatus` | book-service/index.js:134-136 | BookReserved on an existing book sets status RESERVED and `reservedBy` to the event's user, whatever the prior status, and changes nothing else |
| `ProjectorProperties.ReturnedClearsReservation` | book-service/index.js:137-139 | BookReturned on an existing book sets status AVAILABLE and removes `reservedBy`, for any returning user, and changes nothing else |
| `ProjectorProperties.FoldSnoc` | book-service/index.js:127 | the events are applied left to right: one more event at the end is one more step on the previous result |
| `ProjectorProperties.ApplyIsLocal` | book-service/index.js:129-140 | an event's effect on a book depends only on that book's entry before it |
| `ProjectorProperties.ApplyElsewhere` | book-service/index.js:129-140 | an event about another book (or a non-book event) leaves a book's entry, or its absence, as it was |
| `ProjectorProperties.FoldIsPerBook` | book-service/index.js:126-141 | a book's projected entry (or its absence) equals the projection of that book's own events alone |
| `ProjectorProperties.FoldEndingInAdded` | book-service/index.js:130 | after a BookAdded, whatever came before, the book's entry is the one the event creates |
| `ProjectorProperties.FoldAgreementExtends` | book-service/index.js:127-141 | two histories that give a book the same entry still do after the same further event |
| `ProjectorProperties.FoldAgreementPersists` | book-service/index.js:127-141 | two histories that give a book the same entry still do after any same further events |
| `ProjectorProperties.AddedForgetsHistory` | book-service/index.js:130 | the last BookAdded for a book wins: everything before it is irrelevant to that book's entry |
| `ProjectorProperties.FoldWithoutAddedIsEmpty` | book-service/book-service.test.js:81-86 | a log with no BookAdded, the empty log included, projects to the empty dictionary |
| `ProjectorProperties.SelectionKeepsProjection` | book-service/index.js:123-141 | selecting the four book event types first gives the same projection as folding the whole log |
| `ProjectorProperties.ListingHasOneRowPerAddedBook` | book-service/index.js:142 | the ids of the listed books are exactly the ids of the BookAdded events |
| `ProjectorProperties.WithoutUpdatesReservationsAreConsistent` | book-service/index.js:129-139 | with no BookUpdated in the log, every book is AVAILABLE or RESERVED and has a `reservedBy` only while RESERVED |
| `ProjectorProperties.ReserveThenReturnScenario` | book-service/book-service.test.js:66-79 | Added, Updated (name A2), Reserved by u1, Returned by u1 projects to one book named A2, AVAILABLE, with no `reservedBy` |
| `ProjectorProperties.OrderMatters` | book-service/index.js:129-136 | Reserved then Added ends AVAILABLE; Added then Reserved ends RESERVED |
| `ProjectorProperties.UpdateKeepsStaleReservation` | book-service/index.js:131-136 | Added, Reserved by u, Updated (status AVAILABLE) ends AVAILABLE yet still reserved by u |
| `BookService.InsertedRow` | book-service/index.js:30-33 | the row `POST /books` inserts holds the same payload fields as the entry the projector creates from the BookAdded stored beside it, and no status |
| `BookService.Service.constructor` | book-service/index.js:7-9 | a fresh deployment: an empty table, an empty log, nothing published, and an empty projection |
| `BookService.Service.AppendEvent` | book-service/index.js:35-38 | storing an event appends exactly that row and advances the projection by one fold step when it is a book event |
| `BookService.Service.InsertRow` | book-service/index.js:30-33 | the INSERT adds exactly the given row when the statement succeeds and no row has that `book_id`; otherwise the table is unchanged |
| `BookService.Service.Publish` | book-service/index.js:40 | publishing appends exactly the stored BookAdded event to the channel and keeps every published message a stored BookAdded |
| `BookService.Service.Create` | book-service/index.js:19-46 | on success inserts the row, then appends exactly one BookAdded with version 1.0, then publishes it; a failed step, a duplicate `book_id` included, stops there and earlier writes stay; the projection gains the BookAdded exactly when the event was stored |
| `BookService.Service.UpdateRow` | book-service/index.js:60-63 | the UPDATE overwrites name and status of the row with that `book_id`, if there is one, and changes nothing else |
| `BookService.Service.Update` | book-service/index.js:49-74 | writes name and status to an existing row unconditionally, then appends one BookUpdated; earlier writes stay on failure; nothing is published |
| `BookService.Service.Reserve` | book-service/index.js:77-96 | appends one BookReserved event and never touches the `books` table or the channel |
| `BookService.Service.Return` | book-service/index.js:99-118 | appends one BookReturned event and never touches the `books` table or the channel |
| `BookService.Service.ListBooks` | book-service/index.js:121-147 | on success replies with the listing of the projection of the current log; on a failed query, "Failed to fetch books" |
| `BookService.Service.GetBook` | book-service/index.js:150-158 | replies with the table row for the id, "Book not found" when there is none, or "Failed to fetch book" on a failed query |

## Left out

- HTTP routing, CORS, JSON response bodies and status codes (`Reply` and
  `Fetch` keep only success or failure and the message), and `app.listen`.
- The Redis connection. `published` stands for the `book-events` channel.
  The JSON serialisation of the message and the subscriber in the
  notification service are not part of this model.
- The Postgres pool configuration, and the schema of the `books` table,
  which is not part of this model. The table is taken to be keyed by
  `book_id`: `InsertRow` refuses a second row for the same id, like any
  failed statement. Any other refused INSERT is modelled by
  `rowWritten = false`. The default of the `status` column cannot be seen,
  so the status of a newly inserted row is `None`.
- `ORDER BY timestamp ASC`, and the wall-clock timestamps. The log is taken
  in timestamp order, and a handler's clock reading is its `now` parameter.
- The order of `Object.values`. The listing is a set. Within the model no
  two rows share an id, so nothing is lost.
- The prototype chain of the `{}` dictionary the fold fills. An id that
  names an `Object.prototype` member is not modelled: `books["__proto__"] =
  …` goes through the prototype setter and is never listed, and a later
  event for such an id finds an inherited member and assigns to it (a
  BookReserved for "__proto__" writes `status` and `reservedBy` onto
  `Object.prototype`). The model treats every id as an ordinary own key.
- Logging to the console (index.js:20, 43, 71, 93, 115, 144, 161): it has no effect
  on the state or the replies.
- Calls that never complete. A database query or publish that hangs leaves
  its request waiting, since no time-out is set; each step here either
  succeeds or fails.
- JSON values other than strings and undefined. A numeric field, and the
  truthiness of `0`, are not modelled. An undefined `bookId`, which
  JavaScript turns into the key "undefined", is not modelled either.
- The user service and the UserRegistered and UserProfileUpdated payloads.
  Their events appear only as the constructors that the selection drops.
- Concurrency between requests. Each handler runs to completion.
- BookEvents.SelectBookEvents: its contract states which events are kept,
  not that their order is kept. The order is fixed by its definition and
  used through `SelectionKeepsProjection` and `SelectAppended`.
