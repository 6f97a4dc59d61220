# EventX seat and ticket state machine, in Dafny

This project models the booking core of the EventX event-ticketing backend. Each event has a
fixed list of seats, and each seat is free or booked. A user books one seat per event and
gets a ticket, which carries the price paid and a signed admission token. At the venue an
admin scans the token, which sets the ticket's check-in time once. When the holder cancels
the ticket, its seat becomes free again.

The store is modelled as in-memory state, `Database.Db`:

- the event collection, `map<EventId, Event>`;
- the ticket collection, `seq<Ticket>` in insertion order;
- the next identifiers to hand out. Identifiers are naturals from counters, so they are
  never reused.

`Array.prototype.find` returns the first match, `Database.FindFirst`. A `findOne` without a
sort promises no order; it is taken as the first match in insertion order. Under `Valid` each
ticket filter the handlers use matches at most one ticket (`TicketInvariants.TicketFiltersUnique`),
so the choice decides nothing.

Modules, one per source file or concern:

- `EventModel` (`src/models/Event.js`): the seat and event schema, the defaults and
  enumerations, `Event.create` validation, and the pre-save hook `PreSave` that generates
  seats "S1".."Sn" (`InitialSeats`). `Decimal` gives the decimal rendering of `${i + 1}` and
  its inverse.
- `Admission`: the QR token as an abstract signed payload `(userId, eventId, seatNo, expiry)`.
  `Issue` signs one with a lifetime of 3 days. `Verify` fails on a forged token, and on an
  expired one once the clock reaches the expiry.
- `Database`: the ticket record (`src/models/Ticket.js`), the shared state, and the invariant
  `Valid`:
  - ticket identifiers are unique and fresh;
  - every stored event is well formed: its status and popularity are in their enumerations,
    it has `max(totalSeats, 0)` seats, and its seat numbers are distinct;
  - there is at most one ticket per (user, event);
  - there is at most one ticket per (event, seat);
  - a seat of a stored event is booked iff some ticket is for it;
  - every ticket of a stored event names one of that event's seats;
  - every ticket's token is bound to its own user, event and seat.
- `TicketRoutes` (`src/routes/ticketsRoutes.js`): `Book`, `CheckIn`, `Cancel` and the admin
  ticket listing, as functions from the state before to the state after, plus the outcome.
- `TicketInvariants`: the three handlers keep `Valid`. Also the properties that span several
  calls: a booked seat cannot be booked again; cancel then rebook works; a ticket checks in
  once; a ticket's own token admits it; tickets of a deleted event are listed as
  "Deleted Event".
- `EventRoutes` (`src/routes/eventsRoutes.js`): creation with status normalisation and the
  default capacity, the public listing with its status filter, and the admin update and
  delete. Creation and delete keep `Valid`. Update keeps it only for a restricted patch.
- `Store`: the class `Store`, with fields `events`, `tickets` and the id counters. Its methods
  `CreateEvent`, `UpdateEvent`, `DeleteEvent`, `Book`, `CheckIn` and `Cancel` follow the
  handlers step by step and update the fields in place. Each method's `ensures` ties its new
  state and result to the transition function. Every method except `UpdateEvent` keeps
  `Valid()` when it held before; `UpdateEvent` keeps it only for the patches of
  `EventRoutes.UpdateEventPreservesValid`. `BookingScenario` and `CancelScenario` are client methods: they play the booking,
  check-in and cancellation sequence of one event with seats S1 and S2.

Results are outcome datatypes, not HTTP codes. The model treats a handler's unexpected fault
as an outcome too:

- `EventMissing` for a cancel whose event is gone;
- `SaveRejected` for a booking or cancel whose `save` fails the event's schema validators;
- `CreateRejected` for an event creation that fails validation or the pre-save hook.

The clock (`now`), the requesting user and the ticket's token are parameters.

The model keeps these behaviours of the code:

- Check-in has a single failure for tokens, `InvalidToken`. An expired token is not reported
  separately.
- Booking refuses the user whenever any ticket for the event exists, whether or not it is
  checked in.
- Cancelling sets the seat's flag to false whether or not it was booked, and reports
  nothing about it.
- A negative `totalSeats` produces no seats.
- `PUT /:id` can replace seats, capacity, title and status without validation. `save`
  validates the whole loaded document. After a status outside the enumeration, every later
  booking of the event that passes the duplicate and seat checks fails at the save, and so
  does every cancel that finds its seat; both change nothing. An emptied title has the same
  effect.
- A capacity above 2^32 - 1 makes the pre-save hook's `Array.from` throw, so the event is not
  created.
- Cancelling a ticket whose event was deleted fails before anything changes. Such a ticket
  can therefore never be cancelled.

Booking does not check the event's status, so a "Closed" event can be booked. The model
keeps that.

## Model

| member | source | states |
|---|---|---|
| `Decimal.ParseDigits` | src/models/Event.js:37 | reading back the decimal numeral of n gives n |
| `Decimal.DigitsInjective` | src/models/Event.js:37 | distinct numbers render as distinct numerals |
| `EventModel.LabelIndexOfSeatLabel` | src/models/Event.js:36-38 | the seat number generated for position i reads back as position i |
| `EventModel.InitialSeatsWellFormed` | src/models/Event.js:35-38 | `InitialSeats`, the hook's comprehension, has exactly `totalSeats` seats (none for a negative capacity); seat i is "S" followed by i + 1 in decimal; every seat is free; seat numbers are pairwise distinct |
| `EventModel.PreSave` | src/models/Event.js:34-41 | a new document with no or empty seats gets the generated seats, and the hook throws exactly when such a document's capacity exceeds 2^32 - 1; the hook is a no-op when the document is not new or already has seats |
| `EventModel.CreateDocument` | src/models/Event.js:9-32 | creation succeeds iff the title is non-empty, the date is given, status and popularity are absent or in their enumerations, and the capacity (50 when absent) is at most 2^32 - 1; absent fields default to price 0, 50 seats, "Upcoming", "New"; seats are generated |
| `EventModel.CreatedDocumentWellFormed` | src/models/Event.js:18-28 | a created event passes the validators (non-empty title, status and popularity in their enumerations), and its seats are well formed and all free |
| `EventModel.ValidatorsMatchCreate` | src/models/Event.js:11-28 | `PassesValidators`, the checks `save` runs on a stored document (non-empty title, status and popularity in their enumerations), accepts a document iff `Event.create` would accept the same field values |
| `Admission.Issue` | src/routes/ticketsRoutes.js:58 | a signed token verifies exactly until 3 days after signing, and it yields the signed user, event and seat |
| `Admission.Verify` | src/routes/ticketsRoutes.js:112 | only a signed token whose expiry is still ahead verifies, and it yields its payload |
| `Database.FindFirst` | src/routes/ticketsRoutes.js:51 | the result is the first position satisfying the predicate, or None when no position does |
| `TicketRoutes.Book` | src/routes/ticketsRoutes.js:35-66 | EventNotFound iff the event is unknown; DuplicateBooking iff the user has any ticket for it; SeatUnavailable iff the first seat with that number is missing or booked; SaveRejected iff the seat is bookable but the event fails the validators `save` runs; each failure leaves the state unchanged; success flips exactly that seat, leaves every other seat and event alone, and appends one ticket with the requested user, event and seat, the event's price, a bound token and no check-in time |
| `TicketRoutes.CheckIn` | src/routes/ticketsRoutes.js:109-128 | InvalidToken iff verification fails; TicketNotFound iff no ticket matches the payload; AlreadyCheckedIn iff the first match already has a time; all three leave the state unchanged; otherwise only that ticket's check-in time is set to now |
| `TicketRoutes.FreeSeat` | src/routes/ticketsRoutes.js:141-146 | the first seat with the ticket's number is set free, nothing else changes, and a missing seat is tolerated |
| `TicketRoutes.Cancel` | src/routes/ticketsRoutes.js:130-148 | NotFound iff no ticket has that id and holder; EventMissing iff the ticket's event is gone; SaveRejected iff the event has the ticket's seat but fails the validators `save` runs; these leave the state unchanged; otherwise the seat is freed and exactly that ticket is removed |
| `TicketRoutes.AdminRow` | src/routes/ticketsRoutes.js:18-27 | a listed ticket keeps its id, seat, price and check-in time; a stored event with a non-empty title gives its title, and the title reads "Deleted Event" iff the event is gone, has an empty title, or is itself titled so; a stored event gives its date, and a missing one gives no date |
| `TicketRoutes.AdminListing` | src/routes/ticketsRoutes.js:12-29 | one row per stored ticket, in stored order |
| `TicketInvariants.BookPreservesValid` | src/routes/ticketsRoutes.js:41-65 | booking keeps one ticket per (user, event), one ticket per seat, booked iff ticketed, and bound tokens |
| `TicketInvariants.CancelPreservesValid` | src/routes/ticketsRoutes.js:140-148 | cancelling keeps the invariant: the freed seat is referenced by no remaining ticket |
| `TicketInvariants.CheckInPreservesValid` | src/routes/ticketsRoutes.js:120-123 | check-in keeps the invariant for every state, token and time |
| `TicketInvariants.BookedSeatUnavailable` | src/routes/ticketsRoutes.js:51-56 | after a successful booking, booking the same seat again gives DuplicateBooking to the holder or to anyone with a ticket for the event, and SeatUnavailable to everyone else |
| `TicketInvariants.CancelOwnTicket` | src/routes/ticketsRoutes.js:132-148 | when the event still exists, the holder's cancel succeeds: it frees that ticket's seat and removes exactly that ticket |
| `TicketInvariants.CancelThenRebook` | src/routes/ticketsRoutes.js:140-148 | after a cancel, the holder or any user without a ticket for the event can book the same seat |
| `TicketInvariants.CheckInOnce` | src/routes/ticketsRoutes.js:120-123 | after a successful check-in, the same token gives AlreadyCheckedIn while it verifies, or InvalidToken once expired, and changes nothing, so the time stays |
| `TicketInvariants.OwnTokenAdmitsTicket` | src/routes/ticketsRoutes.js:112-124 | before expiry, a ticket's own token checks in exactly that ticket, or gives AlreadyCheckedIn when it is already checked in |
| `TicketInvariants.DeletedEventTicketsListed` | src/routes/ticketsRoutes.js:20-21 | deleting an event keeps its tickets; the admin listing shows them as "Deleted Event" with no date |
| `TicketInvariants.UnvalidatedStatusBlocksBooking` | src/routes/ticketsRoutes.js:55-56 | after an update stores an unknown status, booking a bookable seat of that event is SaveRejected and changes nothing |
| `TicketInvariants.UnvalidatedStatusBlocksCancel` | src/routes/ticketsRoutes.js:141-146 | after an update stores an unknown status, the holder's cancel of a ticket for that event is SaveRejected: the seat stays booked and the ticket is kept |
| `TicketInvariants.TicketFiltersUnique` | src/routes/ticketsRoutes.js:41-44 | under the invariant, at most one ticket has a given user and event, and at most one has a given id and holder, so the first match is the only one |
| `EventRoutes.NormaliseStatus` | src/routes/eventsRoutes.js:25-27 | a requested status is kept iff it is one of the three known values, otherwise it becomes "Upcoming" |
| `EventRoutes.CreateEvent` | src/routes/eventsRoutes.js:10-40 | creation fails, changing nothing, iff the title is missing or empty, the date is missing, the popularity is unknown, or the capacity exceeds 2^32 - 1; on success the event gets the next id; capacity defaults to 50, price to 0 and popularity to "New"; the status is normalised; seats are generated, never taken from the body; tickets and other events are unchanged |
| `EventRoutes.CreatedEventSeats` | src/routes/eventsRoutes.js:29-40 | a created event has exactly its capacity of seats, numbered S1.., all free |
| `EventRoutes.CreateEventPreservesValid` | src/routes/eventsRoutes.js:29-40 | creating an event keeps the invariant |
| `EventRoutes.ListEvents` | src/routes/eventsRoutes.js:64-77 | an absent or empty status filter keeps all events, otherwise exactly the events with that status; each is returned with its seat list |
| `EventRoutes.UpdateEvent` | src/routes/eventsRoutes.js:85-90 | an unknown id gives None and no change; otherwise each field given in the body replaces the stored one, and the others stay |
| `EventRoutes.UpdateEventPreservesValid` | src/routes/eventsRoutes.js:86-88 | an update that leaves seats and capacity alone, does not empty the title, and sets only known status and popularity values keeps the invariant |
| `EventRoutes.UpdateEventSkipsValidation` | src/routes/eventsRoutes.js:86-88 | an update can store a status outside the enumeration, after which the event fails the validators `save` runs |
| `EventRoutes.DeleteEvent` | src/routes/eventsRoutes.js:92-95 | removes only that event; tickets and counters are unchanged |
| `EventRoutes.DeleteEventPreservesValid` | src/routes/eventsRoutes.js:92-95 | deleting an event keeps the invariant |
| `Store.Store.CreateEvent` | src/routes/eventsRoutes.js:10-42 | the store's new state and result are those of `EventRoutes.CreateEvent`; it keeps `Valid()` |
| `Store.Store.UpdateEvent` | src/routes/eventsRoutes.js:85-90 | the store's new state and result are those of `EventRoutes.UpdateEvent`; it keeps `Valid()` for a patch that leaves seats and capacity alone, does not empty the title and uses only known status and popularity values |
| `Store.Store.DeleteEvent` | src/routes/eventsRoutes.js:92-95 | the store's new state is that of `EventRoutes.DeleteEvent`; it keeps `Valid()` |
| `Store.Store.Book` | src/routes/ticketsRoutes.js:35-66 | the store's new state and result are those of `TicketRoutes.Book`; it keeps `Valid()` |
| `Store.Store.CheckIn` | src/routes/ticketsRoutes.js:109-128 | the store's new state and result are those of `TicketRoutes.CheckIn`; it keeps `Valid()` |
| `Store.Store.Cancel` | src/routes/ticketsRoutes.js:130-148 | the store's new state and result are those of `TicketRoutes.Cancel`; it keeps `Valid()` |
| `Store.BookingScenario` | src/routes/ticketsRoutes.js:35-128 | on an event with seats S1 and S2, where U1 books S1, U2 is refused S1, U1 is refused S2 and U1's token is scanned twice: the store stays valid and holds exactly U1's ticket for S1, checked in at the first scan |

## Left out

- Concurrency: the handlers read, check and write across awaits without locks or conditional
  updates. The model is sequential: one handler runs to completion before the next starts.
  No race-freedom is claimed.
- A `Ticket.create` that fails after `ev.save()` (src/routes/ticketsRoutes.js lines 56-65)
  would leave the seat booked with no ticket, since booking has no compensation step. Ticket
  creation is assumed to succeed, so that case is not modelled.
- Persistence failures: apart from the schema checks above, every save, create and delete is
  assumed to succeed. The source has no rollback, so none is modelled. The 500 caused by a
  database error or a malformed id is not modelled.
- The seat's `ticket` back-reference: no handler writes it.
- JWT encoding, the signing key, and parsing of the "3d" lifetime. The token is an abstract
  signed payload. The lifetime is the constant 259200 seconds. Expiry is a comparison on a
  clock in seconds.
- `Admission.Verify` and `TicketRoutes.CheckIn` do not model a session token presented at
  check-in. The same key signs session tokens `{id, role}` (lines 56 and 87 of src/routes/authRoutes.js),
  so such a token verifies. The lookup then runs with the user, event and seat undefined. How
  Mongoose and the driver treat those undefined filter values decides the answer, and that
  code is not part of this model. The model has no `Token` value for such a token.
- Notifications after booking, cancellation and event creation: fire-and-forget writes that
  change no seat or ticket.
- Authentication and roles: the requesting user is a parameter, and admin-only access to
  check-in, create, update and delete is not modelled. The admin listing's holder name and
  e-mail ("Deleted User") are left out, because users are not modelled.
- Listing: the regex title search `q` and the sort by date are done by MongoDB. `ListEvents`
  therefore returns a map, and the order of the events is not modelled. Mongoose always
  gives a stored event a seat list, so the `ev.seats || []` fallback is the identity here.
- `GET /:id`, `GET /mine` and `GET /by-event/:eventId`: single-key or single-field lookups
  that change nothing.
- JavaScript number and type casting: price and totalSeats are integers. Fractional, NaN,
  string and null values are not modelled, and an absent field stands for `undefined`.
  Description, venue, start and end times and the timestamps are passed through unchanged
  and are not modelled.
- `EventRoutes.UpdateEvent`: the patch gives whole seat values, so sub-document defaults and
  casting inside a patch are not modelled. Because the update bypasses validation, the
  invariant is proved only for a patch that leaves seats and capacity alone.
- Analytics, attendee insights, authentication routes, the user schema, the QR image helper
  and the server wiring are outside this model.
