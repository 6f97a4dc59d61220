/** The ticket handlers as transitions of the database: booking a seat, checking a ticket in
    with its token, cancelling a ticket, and the admin ticket listing. Each transition takes
    the state before and returns the state after with the handler's outcome. Persistence calls
    are assumed to succeed. */
module TicketRoutes {
  import opened Wrappers
  import opened Ids
  import opened EventModel
  import opened Admission
  import opened Database

  /** `Ticket.findOne({user, event})`. */
  function FindBooking(ts: seq<Ticket>, user: UserId, eventId: EventId): Option<nat> {
    FindFirst(ts, (t: Ticket) => t.user == user && t.event == eventId)
  }

  /** `Ticket.findOne({user, event, seatNo})` with the fields of an admission payload. */
  function FindAdmitted(ts: seq<Ticket>, p: Payload): Option<nat> {
    FindFirst(ts, (t: Ticket) => Admits(t, p))
  }

  /** `Ticket.findOne({_id, user})`. */
  function FindOwned(ts: seq<Ticket>, ticketId: TicketId, user: UserId): Option<nat> {
    FindFirst(ts, (t: Ticket) => Owns(t, ticketId, user))
  }

  /** `SaveRejected` is the validation error `save` raises on an event that no longer passes
      its schema validators. */
  datatype BookOutcome = Booked(ticket: Ticket) | EventNotFound | DuplicateBooking | SeatUnavailable | SaveRejected

  datatype CheckInOutcome = CheckedIn(ticket: Ticket) | InvalidToken | TicketNotFound | AlreadyCheckedIn

  /** `EventMissing` is the fault raised when the ticket's event has been deleted;
      `SaveRejected` is the validation error `save` raises on an event that no longer passes
      its schema validators. */
  datatype CancelOutcome = Cancelled | NotFound | EventMissing | SaveRejected

  /** POST /book by `user` for seat `seatNo` of event `eventId` at time `now`. Checks, in this
      order: the event exists, the user holds no ticket for it (checked in or not), the first
      seat with that number exists and is free, and saving the event passes its validators.
      Each failure leaves the state as it was. On
      success exactly that seat becomes booked, nothing else in any event changes, and one
      ticket is appended, carrying the event's price at that moment, a token bound to the
      user, event and seat, and no check-in time. */
  function Book(db: Db, user: UserId, eventId: EventId, seatNo: string, now: nat): (r: (Db, BookOutcome))
    ensures r.1.EventNotFound? <==> eventId !in db.events
    ensures r.1.DuplicateBooking? <==> eventId in db.events && HasBooking(db.tickets, user, eventId)
    ensures r.1.SeatUnavailable? <==>
      eventId in db.events && !HasBooking(db.tickets, user, eventId) && !SeatBookable(db.events[eventId].seats, seatNo)
    ensures r.1.SaveRejected? <==>
      eventId in db.events && !HasBooking(db.tickets, user, eventId) && SeatBookable(db.events[eventId].seats, seatNo) &&
      !PassesValidators(db.events[eventId])
    ensures !r.1.Booked? ==> r.0 == db
    ensures r.1.Booked? ==>
      var ev := db.events[eventId];
      exists k :: 0 <= k < |ev.seats| && ev.seats[k].seatNo == seatNo && !ev.seats[k].isBooked &&
        (forall j :: 0 <= j < k ==> ev.seats[j].seatNo != seatNo) &&
        r.0.events == db.events[eventId := ev.(seats := ev.seats[k := Seat(seatNo, true)])]
    ensures r.1.Booked? ==>
      && r.0.tickets == db.tickets + [r.1.ticket]
      && r.0.nextTicket == db.nextTicket + 1
      && r.0.nextEvent == db.nextEvent
      && r.1.ticket.id == db.nextTicket
      && r.1.ticket.user == user && r.1.ticket.event == eventId && r.1.ticket.seatNo == seatNo
      && r.1.ticket.pricePaid == db.events[eventId].price
      && r.1.ticket.qrToken == Issue(user, eventId, seatNo, now)
      && r.1.ticket.checkedInAt == None
  {
    if eventId !in db.events then (db, EventNotFound)
    else
      var ev := db.events[eventId];
      if FindBooking(db.tickets, user, eventId).Some? then (db, DuplicateBooking)
      else match FindSeat(ev.seats, seatNo)
        case None => (db, SeatUnavailable)
        case Some(k) =>
          if ev.seats[k].isBooked then (db, SeatUnavailable)
          else if !PassesValidators(ev) then (db, BookOutcome.SaveRejected)
          else
            var ev' := ev.(seats := ev.seats[k := ev.seats[k].(isBooked := true)]);
            var t := Ticket(db.nextTicket, user, eventId, seatNo, ev.price, Issue(user, eventId, seatNo, now), None);
            (db.(events := db.events[eventId := ev'], tickets := db.tickets + [t], nextTicket := db.nextTicket + 1), Booked(t))
  }

  /** The ticket an admission payload names: held by its user, for its event and seat. */
  predicate Admits(t: Ticket, p: Payload) {
    t.user == p.userId && t.event == p.eventId && t.seatNo == p.seatNo
  }

  /** POST /checkin with `token` at time `now`. A token that fails verification is InvalidToken;
      a verified token naming no ticket is TicketNotFound; a ticket already checked in is
      AlreadyCheckedIn, with its time left as it was. Otherwise the first ticket the token
      names gets check-in time `now` and nothing else changes. */
  function CheckIn(db: Db, token: Token, now: nat): (r: (Db, CheckInOutcome))
    ensures r.1.InvalidToken? <==> Verify(token, now).None?
    ensures r.1.TicketNotFound? <==>
      Verify(token, now).Some? && forall j :: 0 <= j < |db.tickets| ==> !Admits(db.tickets[j], token.payload)
    ensures r.1.AlreadyCheckedIn? <==>
      Verify(token, now).Some? &&
      exists i :: 0 <= i < |db.tickets| && Admits(db.tickets[i], token.payload) &&
        (forall j :: 0 <= j < i ==> !Admits(db.tickets[j], token.payload)) &&
        db.tickets[i].checkedInAt.Some?
    ensures !r.1.CheckedIn? ==> r.0 == db
    ensures r.1.CheckedIn? ==>
      exists i :: 0 <= i < |db.tickets| && Admits(db.tickets[i], token.payload) &&
        (forall j :: 0 <= j < i ==> !Admits(db.tickets[j], token.payload)) &&
        db.tickets[i].checkedInAt.None? &&
        r.1.ticket == db.tickets[i].(checkedInAt := Some(now)) &&
        r.0 == db.(tickets := db.tickets[i := r.1.ticket])
  {
    match Verify(token, now)
    case None => (db, InvalidToken)
    case Some(p) =>
      match FindAdmitted(db.tickets, p)
      case None => (db, TicketNotFound)
      case Some(i) =>
        if db.tickets[i].checkedInAt.Some? then (db, AlreadyCheckedIn)
        else
          var t := db.tickets[i].(checkedInAt := Some(now));
          (db.(tickets := db.tickets[i := t]), CheckedIn(t))
  }

  /** The ticket `ticketId` held by `user`. */
  predicate Owns(t: Ticket, ticketId: TicketId, user: UserId) {
    t.id == ticketId && t.user == user
  }

  /** The events after the seat numbered `seatNo` of event `e` is freed; when the event has no
      such seat the events stay as they are. */
  function FreeSeat(events: map<EventId, Event>, e: EventId, seatNo: string): (r: map<EventId, Event>)
    requires e in events
    ensures r.Keys == events.Keys
    ensures forall e' :: e' in events && e' != e ==> r[e'] == events[e']
    ensures !HasSeat(events[e].seats, seatNo) ==> r == events
    ensures HasSeat(events[e].seats, seatNo) ==>
      exists k :: 0 <= k < |events[e].seats| && events[e].seats[k].seatNo == seatNo &&
        (forall j :: 0 <= j < k ==> events[e].seats[j].seatNo != seatNo) &&
        r[e] == events[e].(seats := events[e].seats[k := Seat(seatNo, false)])
  {
    var ev := events[e];
    match FindSeat(ev.seats, seatNo)
    case None => events
    case Some(k) => events[e := ev.(seats := ev.seats[k := ev.seats[k].(isBooked := false)])]
  }

  /** DELETE /:id of ticket `ticketId` requested by `user`. A ticket that does not exist or is
      held by someone else is NotFound; a ticket whose event has been deleted is EventMissing;
      when the event has the ticket's seat but no longer passes its validators, saving it is
      SaveRejected and the ticket is kept. These leave the state as it was. Otherwise the
      ticket's seat is freed (a missing seat is tolerated, and nothing is saved) and exactly
      that ticket is removed. */
  function Cancel(db: Db, ticketId: TicketId, user: UserId): (r: (Db, CancelOutcome))
    ensures r.1.NotFound? <==> forall j :: 0 <= j < |db.tickets| ==> !Owns(db.tickets[j], ticketId, user)
    ensures !r.1.Cancelled? ==> r.0 == db
    ensures !r.1.NotFound? ==>
      exists i :: 0 <= i < |db.tickets| && Owns(db.tickets[i], ticketId, user) &&
        (forall j :: 0 <= j < i ==> !Owns(db.tickets[j], ticketId, user)) &&
        (r.1.EventMissing? <==> db.tickets[i].event !in db.events) &&
        (r.1.SaveRejected? <==>
           (db.tickets[i].event in db.events &&
            HasSeat(db.events[db.tickets[i].event].seats, db.tickets[i].seatNo) &&
            !PassesValidators(db.events[db.tickets[i].event]))) &&
        (r.1.Cancelled? ==>
          r.0 == db.(events := FreeSeat(db.events, db.tickets[i].event, db.tickets[i].seatNo),
                     tickets := RemoveAt(db.tickets, i)))
  {
    match FindOwned(db.tickets, ticketId, user)
    case None => (db, NotFound)
    case Some(i) =>
      var t := db.tickets[i];
      if t.event !in db.events then (db, EventMissing)
      else if HasSeat(db.events[t.event].seats, t.seatNo) && !PassesValidators(db.events[t.event]) then (db, CancelOutcome.SaveRejected)
      else (db.(events := FreeSeat(db.events, t.event, t.seatNo), tickets := RemoveAt(db.tickets, i)), Cancelled)
  }

  /** One row of the admin ticket listing (GET /). Holder names and e-mails are not modelled. */
  datatype TicketRow = TicketRow(
    id: TicketId,
    eventTitle: string,
    eventDate: Option<nat>,
    seatNo: string,
    pricePaid: int,
    checkedInAt: Option<nat>)

  const DeletedEventTitle: string := "Deleted Event"

  /** A ticket as the admin listing shows it: the event's title and date when the event is
      still stored (an empty title reads as deleted too), "Deleted Event" and no date otherwise. */
  function AdminRow(events: map<EventId, Event>, t: Ticket): (row: TicketRow)
    ensures row.id == t.id && row.seatNo == t.seatNo && row.pricePaid == t.pricePaid && row.checkedInAt == t.checkedInAt
    ensures row.eventTitle == DeletedEventTitle <==>
      t.event !in events || events[t.event].title == "" || events[t.event].title == DeletedEventTitle
    ensures row.eventDate.Some? <==> t.event in events
    ensures t.event in events && events[t.event].title != "" ==> row.eventTitle == events[t.event].title
    ensures t.event in events ==> row.eventDate == Some(events[t.event].date)
  {
    var title := if t.event in events && events[t.event].title != "" then events[t.event].title else DeletedEventTitle;
    var date := if t.event in events then Some(events[t.event].date) else None;
    TicketRow(t.id, title, date, t.seatNo, t.pricePaid, t.checkedInAt)
  }

  /** Every ticket, in stored order, as the admin sees it. */
  function AdminListing(db: Db): (rows: seq<TicketRow>)
    ensures |rows| == |db.tickets|
    ensures forall j :: 0 <= j < |rows| ==> rows[j] == AdminRow(db.events, db.tickets[j])
  {
    seq(|db.tickets|, j requires 0 <= j < |db.tickets| => AdminRow(db.events, db.tickets[j]))
  }
}
