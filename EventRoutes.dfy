/** The event handlers: creation with its field normalisation, the public listing, and the
    admin update and delete, as transitions of the database. */
module EventRoutes {
  import opened Wrappers
  import opened Ids
  import opened EventModel
  import opened Database

  /** The body of POST /: None is a field the client left out. Seats are not read from it. */
  datatype CreateRequest = CreateRequest(
    title: Option<string>,
    date: Option<nat>,
    price: Option<int>,
    totalSeats: Option<int>,
    status: Option<string>,
    popularity: Option<string>)

  /** A requested status is kept when it is one of the three known ones, otherwise it becomes
      "Upcoming". */
  function NormaliseStatus(status: Option<string>): (r: string)
    ensures r in Statuses
    ensures r == status.GetOr("") <==> status.Some? && status.value in Statuses
    ensures !(status.Some? && status.value in Statuses) ==> r == DefaultStatus
  {
    if status.Some? && status.value in Statuses then status.value else DefaultStatus
  }

  /** The fields the handler passes to `Event.create`: totalSeats defaults to 50 and the status
      is normalised; every other field is passed through. */
  function RequestFields(req: CreateRequest): EventFields {
    EventFields(req.title, req.date, req.price, Some(req.totalSeats.GetOr(DefaultTotalSeats)),
                Some(NormaliseStatus(req.status)), req.popularity)
  }

  /** `CreateRejected` is the error `Event.create` raises: a missing title or date or an
      unknown popularity fails validation, and a capacity above the array limit makes the
      pre-save hook throw. */
  datatype CreateOutcome = Created(id: EventId) | CreateRejected

  /** POST /. On success the new event gets the next identifier, keeps the requested title,
      date and price (0 when absent), capacity (50 when absent) and popularity ("New" when
      absent), gets the normalised status, and has exactly `totalSeats` generated seats, all
      free. Tickets are untouched. A rejected creation changes nothing. */
  function CreateEvent(db: Db, req: CreateRequest): (r: (Db, CreateOutcome))
    ensures r.1.CreateRejected? <==>
      || !RequiredString(req.title) || req.date.None? || !EnumOk(req.popularity, Popularities)
      || req.totalSeats.GetOr(DefaultTotalSeats) > MaxArrayLength
    ensures r.1.CreateRejected? ==> r.0 == db
    ensures r.1.Created? ==>
      && r.1.id == db.nextEvent
      && r.0.tickets == db.tickets && r.0.nextTicket == db.nextTicket && r.0.nextEvent == db.nextEvent + 1
      && r.0.events.Keys == db.events.Keys + {r.1.id}
      && (forall e :: e in db.events && e != r.1.id ==> r.0.events[e] == db.events[e])
    ensures r.1.Created? ==>
      var ev := r.0.events[r.1.id];
      && ev.title == req.title.value && ev.date == req.date.value
      && ev.price == req.price.GetOr(DefaultPrice)
      && ev.totalSeats == req.totalSeats.GetOr(DefaultTotalSeats)
      && ev.status == NormaliseStatus(req.status)
      && ev.popularity == req.popularity.GetOr(DefaultPopularity)
      && ev.seats == InitialSeats(ev.totalSeats)
  {
    match CreateDocument(RequestFields(req))
    case None => (db, CreateRejected)
    case Some(ev) =>
      (db.(events := db.events[db.nextEvent := ev], nextEvent := db.nextEvent + 1), Created(db.nextEvent))
  }

  /** A created event has a well-formed seat list of its capacity, every seat free. */
  lemma CreatedEventSeats(db: Db, req: CreateRequest)
    requires CreateEvent(db, req).1.Created?
    ensures var ev := CreateEvent(db, req).0.events[CreateEvent(db, req).1.id];
      WellFormedEvent(ev) && |ev.seats| == SeatCount(ev.totalSeats) &&
      forall k :: 0 <= k < |ev.seats| ==> !ev.seats[k].isBooked && ev.seats[k].seatNo == SeatLabel(k)
  {
    CreatedDocumentWellFormed(RequestFields(req));
    InitialSeatsWellFormed(CreateDocument(RequestFields(req)).value.totalSeats);
  }

  /** Creating an event keeps the invariant: no ticket can refer to the fresh identifier, and
      all its seats are free. */
  lemma CreateEventPreservesValid(db: Db, req: CreateRequest)
    requires Valid(db)
    ensures Valid(CreateEvent(db, req).0)
  {
    var r := CreateEvent(db, req);
    if r.1.Created? {
      CreatedEventSeats(db, req);
      var id := r.1.id;
      var ev := r.0.events[id];
      forall k | 0 <= k < |ev.seats| ensures !SeatTaken(db.tickets, id, ev.seats[k].seatNo) {
      }
      assert SeatsMatchTickets(r.0);
    }
  }

  /** GET / with an optional status filter. An absent or empty filter keeps every event,
      otherwise exactly the events with that status are kept; each is returned with its seat
      list. */
  function ListEvents(events: map<EventId, Event>, status: Option<string>): (r: map<EventId, Event>)
    ensures forall e :: e in r <==> e in events && (status.None? || status.value == "" || events[e].status == status.value)
    ensures forall e :: e in r ==> r[e] == events[e]
  {
    if status.None? || status.value == "" then events
    else map e | e in events && events[e].status == status.value :: events[e]
  }

  /** The body of PUT /:id; None leaves a field as it is. */
  datatype EventPatch = EventPatch(
    title: Option<string>,
    date: Option<nat>,
    price: Option<int>,
    totalSeats: Option<int>,
    seats: Option<seq<Seat>>,
    status: Option<string>,
    popularity: Option<string>)

  function Merge(ev: Event, p: EventPatch): Event {
    Event(p.title.GetOr(ev.title), p.date.GetOr(ev.date), p.price.GetOr(ev.price),
          p.totalSeats.GetOr(ev.totalSeats), p.seats.GetOr(ev.seats),
          p.status.GetOr(ev.status), p.popularity.GetOr(ev.popularity))
  }

  /** PUT /:id: the updated event, or None when there is no such event. The patch is written
      without validators or the pre-save hook, so it may set any status or seat list. */
  function UpdateEvent(db: Db, id: EventId, p: EventPatch): (r: (Db, Option<Event>))
    ensures id !in db.events ==> r == (db, None)
    ensures id in db.events ==> r.1.Some? && r.0 == db.(events := db.events[id := r.1.value])
    ensures id in db.events ==>
      var ev, ev' := db.events[id], r.1.value;
      && (p.title.None? ==> ev'.title == ev.title) && (p.title.Some? ==> ev'.title == p.title.value)
      && (p.price.None? ==> ev'.price == ev.price) && (p.price.Some? ==> ev'.price == p.price.value)
      && (p.totalSeats.None? ==> ev'.totalSeats == ev.totalSeats) && (p.totalSeats.Some? ==> ev'.totalSeats == p.totalSeats.value)
      && (p.seats.None? ==> ev'.seats == ev.seats) && (p.seats.Some? ==> ev'.seats == p.seats.value)
      && (p.status.None? ==> ev'.status == ev.status) && (p.status.Some? ==> ev'.status == p.status.value)
      && (p.popularity.None? ==> ev'.popularity == ev.popularity) && (p.popularity.Some? ==> ev'.popularity == p.popularity.value)
      && (p.date.None? ==> ev'.date == ev.date) && (p.date.Some? ==> ev'.date == p.date.value)
  {
    if id !in db.events then (db, None)
    else var ev' := Merge(db.events[id], p); (db.(events := db.events[id := ev']), Some(ev'))
  }

  /** A patch that leaves the seats and the capacity alone, does not empty the title and sets
      only known status and popularity values keeps the invariant. */
  lemma UpdateEventPreservesValid(db: Db, id: EventId, p: EventPatch)
    requires Valid(db)
    requires p.seats.None? && p.totalSeats.None? && p.title != Some("")
    requires EnumOk(p.status, Statuses) && EnumOk(p.popularity, Popularities)
    ensures Valid(UpdateEvent(db, id, p).0)
  {
    var r := UpdateEvent(db, id, p);
    if id in db.events {
      assert r.0.events[id].seats == db.events[id].seats;
      assert SeatsMatchTickets(r.0);
    }
  }

  /** Because the update is not validated, a stored event's status can be set outside the
      three known values, after which the event no longer passes the validators `save` runs. */
  lemma UpdateEventSkipsValidation(db: Db, id: EventId, status: string)
    requires id in db.events && status !in Statuses
    ensures !PassesValidators(UpdateEvent(db, id, EventPatch(None, None, None, None, None, Some(status), None)).0.events[id])
  {
  }

  /** DELETE /:id: removes the event record only; its tickets stay. */
  function DeleteEvent(db: Db, id: EventId): (r: Db)
    ensures r.events.Keys == db.events.Keys - {id}
    ensures forall e :: e in r.events ==> r.events[e] == db.events[e]
    ensures r.tickets == db.tickets && r.nextTicket == db.nextTicket && r.nextEvent == db.nextEvent
  {
    db.(events := db.events - {id})
  }

  /** Deleting an event keeps the invariant; the invariant only asks seats of stored events to
      match tickets. */
  lemma DeleteEventPreservesValid(db: Db, id: EventId)
    requires Valid(db)
    ensures Valid(DeleteEvent(db, id))
  {
    var db' := DeleteEvent(db, id);
    assert SeatsMatchTickets(db');
  }
}
