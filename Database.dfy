/** The persisted state the ticket and event handlers share: the event collection, keyed by
    id, and the ticket collection in insertion order. `findOne` without a sort promises no
    order; it is taken as the first match here, and under the invariant each of the three
    ticket filters matches at most one ticket, so the choice does not matter. Also the
    invariant that booking, cancelling and checking in are meant to keep. */
module Database {
  import opened Wrappers
  import opened Ids
  import opened EventModel
  import opened Admission

  /** A ticket document. `checkedInAt` defaults to null (None). */
  datatype Ticket = Ticket(
    id: TicketId,
    user: UserId,
    event: EventId,
    seatNo: string,
    pricePaid: int,
    qrToken: Token,
    checkedInAt: Option<nat>)

  /** Both collections, and the next identifiers to hand out. */
  datatype Db = Db(
    events: map<EventId, Event>,
    tickets: seq<Ticket>,
    nextTicket: TicketId,
    nextEvent: EventId)

  const EmptyDb: Db := Db(map[], [], 0, 0)

  /** The position of the first element satisfying `p`, as `Array.prototype.find` and
      `findOne` locate it. */
  function FindFirst<T>(s: seq<T>, p: T -> bool): (r: Option<nat>)
    ensures r.Some? ==> r.value < |s| && p(s[r.value]) && forall j :: 0 <= j < r.value ==> !p(s[j])
    ensures r.None? ==> forall j :: 0 <= j < |s| ==> !p(s[j])
    decreases |s|
  {
    if |s| == 0 then None
    else if p(s[0]) then Some(0)
    else match FindFirst(s[1..], p)
      case None => None
      case Some(k) => Some(k + 1)
  }

  /** `ev.seats.find((s) => s.seatNo === seatNo)`. */
  function FindSeat(seats: seq<Seat>, seatNo: string): Option<nat> {
    FindFirst(seats, (s: Seat) => s.seatNo == seatNo)
  }

  /** The sequence without its element at position `i`. */
  function RemoveAt<T>(s: seq<T>, i: nat): (r: seq<T>)
    requires i < |s|
    ensures |r| == |s| - 1
    ensures forall j :: 0 <= j < |r| ==> r[j] == if j < i then s[j] else s[j + 1]
  {
    s[..i] + s[i + 1..]
  }

  /** Some seat has number `seatNo`. */
  predicate HasSeat(seats: seq<Seat>, seatNo: string) {
    exists k :: 0 <= k < |seats| && seats[k].seatNo == seatNo
  }

  /** The first seat numbered `seatNo` exists and is free: what booking it requires. */
  predicate SeatBookable(seats: seq<Seat>, seatNo: string) {
    exists k :: 0 <= k < |seats| && seats[k].seatNo == seatNo && !seats[k].isBooked &&
      forall j :: 0 <= j < k ==> seats[j].seatNo != seatNo
  }

  /** Some ticket is held by `user` for `event`. */
  predicate HasBooking(ts: seq<Ticket>, user: UserId, event: EventId) {
    exists j :: 0 <= j < |ts| && ts[j].user == user && ts[j].event == event
  }

  /** Some ticket is for seat `seatNo` of `event`. */
  predicate SeatTaken(ts: seq<Ticket>, event: EventId, seatNo: string) {
    exists j :: 0 <= j < |ts| && ts[j].event == event && ts[j].seatNo == seatNo
  }

  predicate TicketIdsUnique(ts: seq<Ticket>) {
    forall i, j :: 0 <= i < j < |ts| ==> ts[i].id != ts[j].id
  }

  /** At most one ticket per (user, event). */
  predicate OneTicketPerUserEvent(ts: seq<Ticket>) {
    forall i, j :: 0 <= i < j < |ts| ==> !(ts[i].user == ts[j].user && ts[i].event == ts[j].event)
  }

  /** At most one ticket per (event, seat number). */
  predicate OneTicketPerSeat(ts: seq<Ticket>) {
    forall i, j :: 0 <= i < j < |ts| ==> !(ts[i].event == ts[j].event && ts[i].seatNo == ts[j].seatNo)
  }

  /** A ticket's token is signed for its own holder, event and seat. */
  predicate TokenBound(t: Ticket) {
    t.qrToken.Signed? &&
    t.qrToken.payload.userId == t.user &&
    t.qrToken.payload.eventId == t.event &&
    t.qrToken.payload.seatNo == t.seatNo
  }

  /** A seat of a stored event is booked iff some ticket is for it, and every ticket whose
      event is still stored names one of that event's seats. */
  predicate SeatsMatchTickets(db: Db) {
    && (forall e, k :: e in db.events && 0 <= k < |db.events[e].seats| ==>
          (db.events[e].seats[k].isBooked <==> SeatTaken(db.tickets, e, db.events[e].seats[k].seatNo)))
    && (forall j :: 0 <= j < |db.tickets| && db.tickets[j].event in db.events ==>
          HasSeat(db.events[db.tickets[j].event].seats, db.tickets[j].seatNo))
  }

  /** Identifiers in use lie below the counters, so new ones are fresh. */
  predicate IdsIssued(db: Db) {
    && TicketIdsUnique(db.tickets)
    && (forall j :: 0 <= j < |db.tickets| ==> db.tickets[j].id < db.nextTicket && db.tickets[j].event < db.nextEvent)
    && (forall e :: e in db.events ==> e < db.nextEvent)
  }

  /** The consistency the handlers maintain under sequential execution. */
  predicate Valid(db: Db) {
    && IdsIssued(db)
    && (forall e :: e in db.events ==> WellFormedEvent(db.events[e]))
    && OneTicketPerUserEvent(db.tickets)
    && OneTicketPerSeat(db.tickets)
    && SeatsMatchTickets(db)
    && (forall j :: 0 <= j < |db.tickets| ==> TokenBound(db.tickets[j]))
  }

  lemma EmptyDbValid()
    ensures Valid(EmptyDb)
  {
  }

  /** Removing a ticket keeps every other ticket's (event, seat) taken, and only those. */
  lemma SeatTakenAfterRemove(ts: seq<Ticket>, i: nat, event: EventId, seatNo: string)
    requires i < |ts|
    ensures SeatTaken(RemoveAt(ts, i), event, seatNo) <==>
      exists j :: 0 <= j < |ts| && j != i && ts[j].event == event && ts[j].seatNo == seatNo
  {
    var r := RemoveAt(ts, i);
    if j :| 0 <= j < |ts| && j != i && ts[j].event == event && ts[j].seatNo == seatNo {
      var j' := if j < i then j else j - 1;
      assert r[j'] == ts[j];
    }
    if SeatTaken(r, event, seatNo) {
      var j' :| 0 <= j' < |r| && r[j'].event == event && r[j'].seatNo == seatNo;
      var j := if j' < i then j' else j' + 1;
      assert ts[j] == r[j'];
    }
  }

  lemma SeatTakenAfterAppend(ts: seq<Ticket>, t: Ticket, event: EventId, seatNo: string)
    ensures SeatTaken(ts + [t], event, seatNo) <==>
      SeatTaken(ts, event, seatNo) || (t.event == event && t.seatNo == seatNo)
  {
    var r := ts + [t];
    if SeatTaken(ts, event, seatNo) {
      var j :| 0 <= j < |ts| && ts[j].event == event && ts[j].seatNo == seatNo;
      assert r[j] == ts[j];
    }
    if t.event == event && t.seatNo == seatNo {
      assert r[|ts|] == t;
    }
  }

  /** Replacing a ticket by one for the same event and seat leaves every seat as taken as it was. */
  lemma SeatTakenAfterUpdate(ts: seq<Ticket>, i: nat, t: Ticket, event: EventId, seatNo: string)
    requires i < |ts| && t.event == ts[i].event && t.seatNo == ts[i].seatNo
    ensures SeatTaken(ts[i := t], event, seatNo) <==> SeatTaken(ts, event, seatNo)
  {
    var r := ts[i := t];
    if SeatTaken(ts, event, seatNo) {
      var j :| 0 <= j < |ts| && ts[j].event == event && ts[j].seatNo == seatNo;
      assert r[j].event == ts[j].event && r[j].seatNo == ts[j].seatNo;
    }
    if SeatTaken(r, event, seatNo) {
      var j :| 0 <= j < |r| && r[j].event == event && r[j].seatNo == seatNo;
      assert r[j].event == ts[j].event && r[j].seatNo == ts[j].seatNo;
    }
  }

  /** The per-ticket pairwise properties of the invariant. */
  predicate TicketsDisjoint(ts: seq<Ticket>) {
    TicketIdsUnique(ts) && OneTicketPerUserEvent(ts) && OneTicketPerSeat(ts)
  }

  lemma RemoveAtKeepsDisjoint(ts: seq<Ticket>, i: nat)
    requires i < |ts| && TicketsDisjoint(ts)
    ensures TicketsDisjoint(RemoveAt(ts, i))
  {
    var r := RemoveAt(ts, i);
    forall a, b | 0 <= a < b < |r|
      ensures r[a].id != r[b].id
      ensures !(r[a].user == r[b].user && r[a].event == r[b].event)
      ensures !(r[a].event == r[b].event && r[a].seatNo == r[b].seatNo)
    {
      var a0, b0 := if a < i then a else a + 1, if b < i then b else b + 1;
      assert r[a] == ts[a0] && r[b] == ts[b0] && a0 < b0;
    }
  }

  /** Two ticket sequences that agree, position by position, on everything but check-in times. */
  predicate SameBookings(ts: seq<Ticket>, ts': seq<Ticket>) {
    |ts'| == |ts| &&
    forall j :: 0 <= j < |ts| ==>
      ts'[j].id == ts[j].id && ts'[j].user == ts[j].user && ts'[j].event == ts[j].event &&
      ts'[j].seatNo == ts[j].seatNo && ts'[j].qrToken == ts[j].qrToken
  }

  lemma SameBookingsKeepValid(db: Db, ts': seq<Ticket>)
    requires Valid(db) && SameBookings(db.tickets, ts')
    ensures Valid(db.(tickets := ts'))
  {
    var db' := db.(tickets := ts');
    forall e, n | e in db.events
      ensures SeatTaken(ts', e, n) <==> SeatTaken(db.tickets, e, n)
    {
      if SeatTaken(db.tickets, e, n) {
        var j :| 0 <= j < |db.tickets| && db.tickets[j].event == e && db.tickets[j].seatNo == n;
        assert ts'[j].event == e && ts'[j].seatNo == n;
      }
      if SeatTaken(ts', e, n) {
        var j :| 0 <= j < |ts'| && ts'[j].event == e && ts'[j].seatNo == n;
        assert db.tickets[j].event == e && db.tickets[j].seatNo == n;
      }
    }
    assert SeatsMatchTickets(db');
    assert forall j :: 0 <= j < |ts'| ==> TokenBound(ts'[j]) by {
      forall j | 0 <= j < |ts'| ensures TokenBound(ts'[j]) {
        assert TokenBound(db.tickets[j]);
      }
    }
  }
}
