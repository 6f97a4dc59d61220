/** The handlers as they run: one store object holding both collections, whose methods look
    documents up, check them, and update the stored event and ticket records in place. Each
    method's new state and result are those of the corresponding transition in
    `TicketRoutes` or `EventRoutes`. Every method except `UpdateEvent` keeps the database
    invariant when it held before; `UpdateEvent` keeps it only for the patches of
    `EventRoutes.UpdateEventPreservesValid`. */
module Store {
  import opened Wrappers
  import opened Ids
  import opened EventModel
  import opened Admission
  import opened Database
  import TicketRoutes
  import TicketInvariants
  import EventRoutes

  class Store {
    var events: map<EventId, Event>
    var tickets: seq<Ticket>
    var nextTicket: TicketId
    var nextEvent: EventId

    /** The stored collections as a value. */
    function State(): Db
      reads this
    {
      Db(events, tickets, nextTicket, nextEvent)
    }

    ghost predicate Valid()
      reads this
    {
      Database.Valid(State())
    }

    constructor ()
      ensures State() == EmptyDb && Valid()
    {
      events, tickets, nextTicket, nextEvent := map[], [], 0, 0;
      EmptyDbValid();
    }

    /** POST /events. */
    method CreateEvent(req: EventRoutes.CreateRequest) returns (r: EventRoutes.CreateOutcome)
      modifies this
      ensures (State(), r) == EventRoutes.CreateEvent(old(State()), req)
      ensures old(Valid()) ==> Valid()
    {
      ghost var before := State();
      var doc := CreateDocument(EventRoutes.RequestFields(req));
      if doc.None? {
        return EventRoutes.CreateRejected;
      }
      r := EventRoutes.Created(nextEvent);
      events := events[nextEvent := doc.value];
      nextEvent := nextEvent + 1;
      if Database.Valid(before) {
        EventRoutes.CreateEventPreservesValid(before, req);
      }
    }

    /** PUT /events/:id. */
    method UpdateEvent(id: EventId, p: EventRoutes.EventPatch) returns (r: Option<Event>)
      modifies this
      ensures (State(), r) == EventRoutes.UpdateEvent(old(State()), id, p)
      ensures (old(Valid()) && p.seats.None? && p.totalSeats.None? && p.title != Some("") &&
               EnumOk(p.status, Statuses) && EnumOk(p.popularity, Popularities)) ==> Valid()
    {
      ghost var before := State();
      if Database.Valid(before) && p.seats.None? && p.totalSeats.None? && p.title != Some("") &&
         EnumOk(p.status, Statuses) && EnumOk(p.popularity, Popularities) {
        EventRoutes.UpdateEventPreservesValid(before, id, p);
      }
      if id !in events {
        return None;
      }
      var ev := EventRoutes.Merge(events[id], p);
      events := events[id := ev];
      r := Some(ev);
    }

    /** DELETE /events/:id. */
    method DeleteEvent(id: EventId)
      modifies this
      ensures State() == EventRoutes.DeleteEvent(old(State()), id)
      ensures old(Valid()) ==> Valid()
    {
      ghost var before := State();
      events := events - {id};
      if Database.Valid(before) {
        EventRoutes.DeleteEventPreservesValid(before, id);
      }
    }

    /** POST /tickets/book. */
    method Book(user: UserId, eventId: EventId, seatNo: string, now: nat) returns (r: TicketRoutes.BookOutcome)
      modifies this
      ensures (State(), r) == TicketRoutes.Book(old(State()), user, eventId, seatNo, now)
      ensures old(Valid()) ==> Valid()
    {
      ghost var before := State();
      if Database.Valid(before) {
        TicketInvariants.BookPreservesValid(before, user, eventId, seatNo, now);
      }
      if eventId !in events {
        return TicketRoutes.EventNotFound;
      }
      var ev := events[eventId];
      if TicketRoutes.FindBooking(tickets, user, eventId).Some? {
        return TicketRoutes.DuplicateBooking;
      }
      var seat := FindSeat(ev.seats, seatNo);
      if seat.None? || ev.seats[seat.value].isBooked {
        return TicketRoutes.SeatUnavailable;
      }
      if !PassesValidators(ev) {
        return TicketRoutes.BookOutcome.SaveRejected;
      }
      var k := seat.value;
      events := events[eventId := ev.(seats := ev.seats[k := ev.seats[k].(isBooked := true)])];
      var t := Ticket(nextTicket, user, eventId, seatNo, ev.price, Issue(user, eventId, seatNo, now), None);
      tickets := tickets + [t];
      nextTicket := nextTicket + 1;
      r := TicketRoutes.Booked(t);
    }

    /** POST /tickets/checkin. */
    method CheckIn(token: Token, now: nat) returns (r: TicketRoutes.CheckInOutcome)
      modifies this
      ensures (State(), r) == TicketRoutes.CheckIn(old(State()), token, now)
      ensures old(Valid()) ==> Valid()
    {
      ghost var before := State();
      if Database.Valid(before) {
        TicketInvariants.CheckInPreservesValid(before, token, now);
      }
      var payload := Verify(token, now);
      if payload.None? {
        return TicketRoutes.InvalidToken;
      }
      var found := TicketRoutes.FindAdmitted(tickets, payload.value);
      if found.None? {
        return TicketRoutes.TicketNotFound;
      }
      var i := found.value;
      if tickets[i].checkedInAt.Some? {
        return TicketRoutes.AlreadyCheckedIn;
      }
      var t := tickets[i].(checkedInAt := Some(now));
      tickets := tickets[i := t];
      r := TicketRoutes.CheckedIn(t);
    }

    /** DELETE /tickets/:id. */
    method Cancel(ticketId: TicketId, user: UserId) returns (r: TicketRoutes.CancelOutcome)
      modifies this
      ensures (State(), r) == TicketRoutes.Cancel(old(State()), ticketId, user)
      ensures old(Valid()) ==> Valid()
    {
      ghost var before := State();
      if Database.Valid(before) {
        TicketInvariants.CancelPreservesValid(before, ticketId, user);
      }
      var found := TicketRoutes.FindOwned(tickets, ticketId, user);
      if found.None? {
        return TicketRoutes.NotFound;
      }
      var i := found.value;
      var t := tickets[i];
      if t.event !in events {
        return TicketRoutes.EventMissing;
      }
      var ev := events[t.event];
      var seat := FindSeat(ev.seats, t.seatNo);
      if seat.Some? {
        if !PassesValidators(ev) {
          return TicketRoutes.CancelOutcome.SaveRejected;
        }
        var k := seat.value;
        events := events[t.event := ev.(seats := ev.seats[k := ev.seats[k].(isBooked := false)])];
      }
      tickets := tickets[..i] + tickets[i + 1..];
      r := TicketRoutes.Cancelled;
    }
  }

  /** An event with seats S1 and S2; U1 (user 1) books S1, U2 (user 2) cannot book S1, U1
      cannot book S2 as well; U1's token checks in once. */
  method BookingScenario(now: nat) returns (store: Store)
    ensures fresh(store) && store.Valid()
    ensures |store.tickets| == 1 && 0 in store.events
    ensures store.tickets[0].id == 0 && store.tickets[0].user == 1 && store.tickets[0].event == 0
    ensures store.tickets[0].seatNo == "S1" && store.tickets[0].checkedInAt == Some(now + 1)
  {
    store := new Store();
    var created := store.CreateEvent(EventRoutes.CreateRequest(Some("E1"), Some(0), Some(25), Some(2), None, None));
    assert created == EventRoutes.Created(0);
    InitialSeatsWellFormed(2);
    assert store.events[0].seats[0] == Seat("S1", false);
    assert store.events[0].seats[1].seatNo == "S2";

    ghost var s0 := store.State();
    assert SeatBookable(s0.events[0].seats, "S1");
    var b1 := store.Book(1, 0, "S1", now);
    assert b1.Booked? && b1.ticket.id == 0 && b1.ticket.pricePaid == 25;
    var token := b1.ticket.qrToken;

    ghost var s1 := store.State();
    TicketInvariants.BookedSeatUnavailable(s0, 1, 0, "S1", now, 2, now);
    var b2 := store.Book(2, 0, "S1", now);
    assert b2 == TicketRoutes.SeatUnavailable;
    assert s1.tickets[0].user == 1 && s1.tickets[0].event == 0;
    var b3 := store.Book(1, 0, "S2", now);
    assert b3 == TicketRoutes.DuplicateBooking;

    ghost var s3 := store.State();
    assert s3.tickets == [b1.ticket];
    TicketInvariants.OwnTokenAdmitsTicket(s3, 0, now + 1);
    var c1 := store.CheckIn(token, now + 1);
    assert c1.CheckedIn? && c1.ticket.checkedInAt == Some(now + 1);
    TicketInvariants.CheckInOnce(s3, token, now + 1, now + 2);
    var c2 := store.CheckIn(token, now + 2);
    assert c2 == TicketRoutes.AlreadyCheckedIn;
  }

  /** Continuing: U1 cancels the ticket, and then U2 can book S1. */
  method CancelScenario(now: nat) {
    var store := BookingScenario(now);
    TicketInvariants.CancelThenRebook(store.State(), 0, 2, now + 3);
    var x := store.Cancel(0, 1);
    assert x == TicketRoutes.Cancelled;
    var b4 := store.Book(2, 0, "S1", now + 3);
    assert b4.Booked?;
  }
}
