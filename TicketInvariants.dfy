/** What the ticket handlers guarantee across calls: they keep the database invariant, a
    booked seat cannot be booked again, a cancelled seat can, and a ticket is checked in once. */
module TicketInvariants {
  import opened Wrappers
  import opened Ids
  import opened EventModel
  import opened Admission
  import opened Database
  import opened TicketRoutes
  import EventRoutes

  /** The state after seat `k` of event `e` is marked booked and ticket `t` appended. */
  function AfterBooking(db: Db, e: EventId, k: nat, t: Ticket): Db
    requires e in db.events && k < |db.events[e].seats|
  {
    var ev := db.events[e];
    db.(events := db.events[e := ev.(seats := ev.seats[k := Seat(ev.seats[k].seatNo, true)])],
        tickets := db.tickets + [t],
        nextTicket := db.nextTicket + 1)
  }

  lemma AfterBookingSeatsMatch(db: Db, e: EventId, k: nat, t: Ticket)
    requires Valid(db) && e in db.events && k < |db.events[e].seats|
    requires !db.events[e].seats[k].isBooked
    requires t.event == e && t.seatNo == db.events[e].seats[k].seatNo
    ensures SeatsMatchTickets(AfterBooking(db, e, k, t))
  {
    var db' := AfterBooking(db, e, k, t);
    forall e2, k2 | e2 in db'.events && 0 <= k2 < |db'.events[e2].seats|
      ensures db'.events[e2].seats[k2].isBooked <==> SeatTaken(db'.tickets, e2, db'.events[e2].seats[k2].seatNo)
    {
      SeatTakenAfterAppend(db.tickets, t, e2, db'.events[e2].seats[k2].seatNo);
    }
    forall j | 0 <= j < |db'.tickets| && db'.tickets[j].event in db'.events
      ensures HasSeat(db'.events[db'.tickets[j].event].seats, db'.tickets[j].seatNo)
    {
      if j < |db.tickets| {
        var e2, n := db.tickets[j].event, db.tickets[j].seatNo;
        var k2 :| 0 <= k2 < |db.events[e2].seats| && db.events[e2].seats[k2].seatNo == n;
        assert db'.events[e2].seats[k2].seatNo == n;
      } else {
        assert db'.events[e].seats[k].seatNo == t.seatNo;
      }
    }
  }

  lemma AfterBookingUnique(db: Db, e: EventId, k: nat, t: Ticket)
    requires Valid(db) && e in db.events && k < |db.events[e].seats|
    requires !db.events[e].seats[k].isBooked
    requires t.event == e && t.seatNo == db.events[e].seats[k].seatNo && t.id == db.nextTicket
    requires !HasBooking(db.tickets, t.user, e)
    ensures IdsIssued(AfterBooking(db, e, k, t))
    ensures OneTicketPerUserEvent(AfterBooking(db, e, k, t).tickets)
    ensures OneTicketPerSeat(AfterBooking(db, e, k, t).tickets)
  {
    assert !SeatTaken(db.tickets, e, t.seatNo);
  }

  lemma AfterBookingValid(db: Db, e: EventId, k: nat, t: Ticket)
    requires Valid(db) && e in db.events && k < |db.events[e].seats|
    requires !db.events[e].seats[k].isBooked
    requires t.event == e && t.seatNo == db.events[e].seats[k].seatNo && t.id == db.nextTicket
    requires !HasBooking(db.tickets, t.user, e) && TokenBound(t)
    ensures Valid(AfterBooking(db, e, k, t))
  {
    AfterBookingSeatsMatch(db, e, k, t);
    AfterBookingUnique(db, e, k, t);
    var db' := AfterBooking(db, e, k, t);
    forall e2 | e2 in db'.events ensures WellFormedEvent(db'.events[e2]) {
      if e2 == e {
        var seats, seats' := db.events[e].seats, db'.events[e].seats;
        assert forall a :: 0 <= a < |seats| ==> seats'[a].seatNo == seats[a].seatNo;
      }
    }
  }

  /** Booking keeps the invariant: one ticket per (user, event), one per seat, and a seat is
      booked iff a ticket is for it. */
  lemma BookPreservesValid(db: Db, user: UserId, eventId: EventId, seatNo: string, now: nat)
    requires Valid(db)
    ensures Valid(Book(db, user, eventId, seatNo, now).0)
  {
    var r := Book(db, user, eventId, seatNo, now);
    if r.1.Booked? {
      var ev := db.events[eventId];
      var k :| 0 <= k < |ev.seats| && ev.seats[k].seatNo == seatNo && !ev.seats[k].isBooked &&
        (forall j :: 0 <= j < k ==> ev.seats[j].seatNo != seatNo) &&
        r.0.events == db.events[eventId := ev.(seats := ev.seats[k := Seat(seatNo, true)])];
      AfterBookingValid(db, eventId, k, r.1.ticket);
      assert r.0 == AfterBooking(db, eventId, k, r.1.ticket);
    }
  }

  /** Freeing a seat changes no seat number. */
  lemma FreeSeatKeepsNumbers(events: map<EventId, Event>, e: EventId, seatNo: string)
    requires e in events
    ensures forall e2 :: e2 in events ==>
      |FreeSeat(events, e, seatNo)[e2].seats| == |events[e2].seats| &&
      forall k :: 0 <= k < |events[e2].seats| ==>
        FreeSeat(events, e, seatNo)[e2].seats[k].seatNo == events[e2].seats[k].seatNo
  {
  }

  /** Freeing a seat changes no seat number and no validated field, so every event stays well
      formed. */
  lemma FreeSeatKeepsWellFormed(events: map<EventId, Event>, e: EventId, seatNo: string)
    requires e in events
    requires forall e2 :: e2 in events ==> WellFormedEvent(events[e2])
    ensures forall e2 :: e2 in FreeSeat(events, e, seatNo) ==> WellFormedEvent(FreeSeat(events, e, seatNo)[e2])
  {
    var events' := FreeSeat(events, e, seatNo);
    forall e2 | e2 in events' ensures WellFormedEvent(events'[e2]) {
      if e2 == e && HasSeat(events[e].seats, seatNo) {
        var ev, ev' := events[e], events'[e];
        assert ev'.title == ev.title && ev'.status == ev.status && ev'.popularity == ev.popularity;
        assert ev'.totalSeats == ev.totalSeats && |ev'.seats| == |ev.seats|;
        assert forall a :: 0 <= a < |ev.seats| ==> ev'.seats[a].seatNo == ev.seats[a].seatNo;
      }
    }
  }

  lemma AfterCancelUnique(db: Db, i: nat)
    requires Valid(db) && i < |db.tickets| && db.tickets[i].event in db.events
    ensures IdsIssued(db.(events := FreeSeat(db.events, db.tickets[i].event, db.tickets[i].seatNo),
                          tickets := RemoveAt(db.tickets, i)))
    ensures OneTicketPerUserEvent(RemoveAt(db.tickets, i))
    ensures OneTicketPerSeat(RemoveAt(db.tickets, i))
    ensures forall j :: 0 <= j < |RemoveAt(db.tickets, i)| ==> TokenBound(RemoveAt(db.tickets, i)[j])
  {
    RemoveAtKeepsDisjoint(db.tickets, i);
  }

  /** After a cancellation, a seat of a stored event is booked iff a remaining ticket is for it. */
  lemma AfterCancelBookedIff(db: Db, i: nat, e: EventId, k2: nat)
    requires Valid(db) && i < |db.tickets| && db.tickets[i].event in db.events
    requires e in db.events && k2 < |db.events[e].seats|
    ensures var events' := FreeSeat(db.events, db.tickets[i].event, db.tickets[i].seatNo);
      events'[e].seats[k2].isBooked <==> SeatTaken(RemoveAt(db.tickets, i), e, events'[e].seats[k2].seatNo)
  {
    var t := db.tickets[i];
    var events', ts' := FreeSeat(db.events, t.event, t.seatNo), RemoveAt(db.tickets, i);
    FreeSeatKeepsNumbers(db.events, t.event, t.seatNo);
    var n := events'[e].seats[k2].seatNo;
    SeatTakenAfterRemove(db.tickets, i, e, n);
    if e == t.event && n == t.seatNo {
      assert HasSeat(db.events[t.event].seats, t.seatNo);
      var ev := db.events[t.event];
      var k :| 0 <= k < |ev.seats| && ev.seats[k].seatNo == t.seatNo &&
        (forall j :: 0 <= j < k ==> ev.seats[j].seatNo != t.seatNo) &&
        events'[t.event] == ev.(seats := ev.seats[k := Seat(t.seatNo, false)]);
      assert k2 == k;
    } else {
      assert events'[e].seats[k2] == db.events[e].seats[k2];
    }
  }

  lemma AfterCancelSeatsMatch(db: Db, i: nat)
    requires Valid(db) && i < |db.tickets| && db.tickets[i].event in db.events
    ensures SeatsMatchTickets(db.(events := FreeSeat(db.events, db.tickets[i].event, db.tickets[i].seatNo),
                                  tickets := RemoveAt(db.tickets, i)))
  {
    var t := db.tickets[i];
    var events', ts' := FreeSeat(db.events, t.event, t.seatNo), RemoveAt(db.tickets, i);
    FreeSeatKeepsNumbers(db.events, t.event, t.seatNo);
    forall e, k2 | e in events' && 0 <= k2 < |events'[e].seats|
      ensures events'[e].seats[k2].isBooked <==> SeatTaken(ts', e, events'[e].seats[k2].seatNo)
    {
      AfterCancelBookedIff(db, i, e, k2);
    }
    forall j | 0 <= j < |ts'| && ts'[j].event in events'
      ensures HasSeat(events'[ts'[j].event].seats, ts'[j].seatNo)
    {
      var j0 := if j < i then j else j + 1;
      assert ts'[j] == db.tickets[j0];
      var e2, n := ts'[j].event, ts'[j].seatNo;
      var k2 :| 0 <= k2 < |db.events[e2].seats| && db.events[e2].seats[k2].seatNo == n;
      assert events'[e2].seats[k2].seatNo == n;
    }
  }

  /** Cancelling keeps the invariant. */
  lemma CancelPreservesValid(db: Db, ticketId: TicketId, user: UserId)
    requires Valid(db)
    ensures Valid(Cancel(db, ticketId, user).0)
  {
    var r := Cancel(db, ticketId, user);
    var found := FindOwned(db.tickets, ticketId, user);
    if r.1.Cancelled? {
      var i := found.value;
      assert r.0 == db.(events := FreeSeat(db.events, db.tickets[i].event, db.tickets[i].seatNo),
                        tickets := RemoveAt(db.tickets, i));
      AfterCancelUnique(db, i);
      AfterCancelSeatsMatch(db, i);
      FreeSeatKeepsWellFormed(db.events, db.tickets[i].event, db.tickets[i].seatNo);
    }
  }

  /** Checking in keeps the invariant: it changes no seat and no ticket's holder, event or seat. */
  lemma CheckInPreservesValid(db: Db, token: Token, now: nat)
    requires Valid(db)
    ensures Valid(CheckIn(db, token, now).0)
  {
    var r := CheckIn(db, token, now);
    if r.1.CheckedIn? {
      var i :| 0 <= i < |db.tickets| && Admits(db.tickets[i], token.payload) &&
        (forall j :: 0 <= j < i ==> !Admits(db.tickets[j], token.payload)) &&
        db.tickets[i].checkedInAt.None? &&
        r.1.ticket == db.tickets[i].(checkedInAt := Some(now)) &&
        r.0 == db.(tickets := db.tickets[i := r.1.ticket]);
      SameBookingsKeepValid(db, r.0.tickets);
    }
  }

  /** Once a seat is booked, booking it again fails whoever asks: the holder, or anyone who
      already has a ticket for the event, gets DuplicateBooking, everyone else SeatUnavailable. */
  lemma BookedSeatUnavailable(db: Db, user: UserId, eventId: EventId, seatNo: string, now: nat,
                              other: UserId, later: nat)
    requires Book(db, user, eventId, seatNo, now).1.Booked?
    ensures var db' := Book(db, user, eventId, seatNo, now).0;
      Book(db', other, eventId, seatNo, later).1 ==
        if other == user || HasBooking(db.tickets, other, eventId) then DuplicateBooking else SeatUnavailable
  {
    var r := Book(db, user, eventId, seatNo, now);
    var db' := r.0;
    var ev := db.events[eventId];
    var k :| 0 <= k < |ev.seats| && ev.seats[k].seatNo == seatNo && !ev.seats[k].isBooked &&
      (forall j :: 0 <= j < k ==> ev.seats[j].seatNo != seatNo) &&
      db'.events == db.events[eventId := ev.(seats := ev.seats[k := Seat(seatNo, true)])];
    var seats' := db'.events[eventId].seats;
    assert seats'[k] == Seat(seatNo, true);
    assert forall k2 :: 0 <= k2 < k ==> seats'[k2] == ev.seats[k2];
    assert !SeatBookable(seats', seatNo);
    assert db'.tickets[|db.tickets|] == r.1.ticket;
    if other == user {
      assert HasBooking(db'.tickets, other, eventId);
    } else if HasBooking(db.tickets, other, eventId) {
      var j :| 0 <= j < |db.tickets| && db.tickets[j].user == other && db.tickets[j].event == eventId;
      assert db'.tickets[j] == db.tickets[j];
    } else {
      forall j | 0 <= j < |db'.tickets| ensures !(db'.tickets[j].user == other && db'.tickets[j].event == eventId) {
        if j < |db.tickets| { assert db'.tickets[j] == db.tickets[j]; }
      }
    }
  }

  /** The holder cancelling ticket `i` (whose event still exists) frees its seat and removes it. */
  lemma CancelOwnTicket(db: Db, i: nat)
    requires Valid(db) && i < |db.tickets| && db.tickets[i].event in db.events
    ensures Cancel(db, db.tickets[i].id, db.tickets[i].user) ==
      (db.(events := FreeSeat(db.events, db.tickets[i].event, db.tickets[i].seatNo),
           tickets := RemoveAt(db.tickets, i)), Cancelled)
  {
    var t := db.tickets[i];
    var r := Cancel(db, t.id, t.user);
    var i' :| 0 <= i' < |db.tickets| && Owns(db.tickets[i'], t.id, t.user) &&
      (forall j :: 0 <= j < i' ==> !Owns(db.tickets[j], t.id, t.user)) &&
      (r.1.EventMissing? <==> db.tickets[i'].event !in db.events) &&
      (r.1.Cancelled? ==>
        r.0 == db.(events := FreeSeat(db.events, db.tickets[i'].event, db.tickets[i'].seatNo),
                   tickets := RemoveAt(db.tickets, i')));
    assert i' == i;
  }

  /** Cancelling a ticket (whose event still exists) succeeds for its holder, and afterwards its
      seat can be booked by the holder or by any user without a ticket for that event. */
  lemma CancelThenRebook(db: Db, i: nat, other: UserId, now: nat)
    requires Valid(db) && i < |db.tickets| && db.tickets[i].event in db.events
    requires other == db.tickets[i].user || !HasBooking(db.tickets, other, db.tickets[i].event)
    ensures Cancel(db, db.tickets[i].id, db.tickets[i].user).1 == Cancelled
    ensures var db' := Cancel(db, db.tickets[i].id, db.tickets[i].user).0;
      Book(db', other, db.tickets[i].event, db.tickets[i].seatNo, now).1.Booked?
  {
    var t := db.tickets[i];
    CancelOwnTicket(db, i);
    var events', ts' := FreeSeat(db.events, t.event, t.seatNo), RemoveAt(db.tickets, i);
    FreedSeatBookable(db, i);
    forall j | 0 <= j < |ts'| ensures !(ts'[j].user == other && ts'[j].event == t.event) {
      var j0 := if j < i then j else j + 1;
      assert ts'[j] == db.tickets[j0] && j0 != i;
    }
  }

  lemma FreedSeatBookable(db: Db, i: nat)
    requires Valid(db) && i < |db.tickets| && db.tickets[i].event in db.events
    ensures SeatBookable(FreeSeat(db.events, db.tickets[i].event, db.tickets[i].seatNo)[db.tickets[i].event].seats,
                         db.tickets[i].seatNo)
  {
    var t := db.tickets[i];
    var events' := FreeSeat(db.events, t.event, t.seatNo);
    assert HasSeat(db.events[t.event].seats, t.seatNo);
    var ev := db.events[t.event];
    var k :| 0 <= k < |ev.seats| && ev.seats[k].seatNo == t.seatNo &&
      (forall j :: 0 <= j < k ==> ev.seats[j].seatNo != t.seatNo) &&
      events'[t.event] == ev.(seats := ev.seats[k := Seat(t.seatNo, false)]);
    assert events'[t.event].seats[k] == Seat(t.seatNo, false);
  }

  /** A ticket is checked in once: after a successful check-in, the same token gives
      AlreadyCheckedIn while it verifies (InvalidToken after it expires) and changes nothing,
      so the recorded time stays. */
  lemma CheckInOnce(db: Db, token: Token, now: nat, later: nat)
    requires CheckIn(db, token, now).1.CheckedIn?
    ensures var db' := CheckIn(db, token, now).0;
      CheckIn(db', token, later) == (db', if Verify(token, later).Some? then AlreadyCheckedIn else InvalidToken)
  {
    var r := CheckIn(db, token, now);
    var i :| 0 <= i < |db.tickets| && Admits(db.tickets[i], token.payload) &&
      (forall j :: 0 <= j < i ==> !Admits(db.tickets[j], token.payload)) &&
      db.tickets[i].checkedInAt.None? &&
      r.1.ticket == db.tickets[i].(checkedInAt := Some(now)) &&
      r.0 == db.(tickets := db.tickets[i := r.1.ticket]);
    var ts' := r.0.tickets;
    if Verify(token, later).Some? {
      assert Admits(ts'[i], token.payload) && ts'[i].checkedInAt.Some?;
      assert forall j :: 0 <= j < i ==> ts'[j] == db.tickets[j];
    }
  }

  /** The token stored in a ticket admits exactly that ticket while it has not expired: the
      first check-in with it records the time on that ticket, a later one reports
      AlreadyCheckedIn. */
  lemma OwnTokenAdmitsTicket(db: Db, j: nat, now: nat)
    requires Valid(db) && j < |db.tickets|
    requires now < db.tickets[j].qrToken.payload.expiry
    ensures CheckIn(db, db.tickets[j].qrToken, now).1 ==
      if db.tickets[j].checkedInAt.None? then CheckedIn(db.tickets[j].(checkedInAt := Some(now)))
      else AlreadyCheckedIn
  {
    var t := db.tickets[j];
    assert TokenBound(t);
    assert Admits(t, t.qrToken.payload);
    forall j' | 0 <= j' < |db.tickets| && j' != j ensures !Admits(db.tickets[j'], t.qrToken.payload) {
      if j' < j { assert !(db.tickets[j'].event == t.event && db.tickets[j'].seatNo == t.seatNo); }
      else { assert !(db.tickets[j].event == db.tickets[j'].event && db.tickets[j].seatNo == db.tickets[j'].seatNo); }
    }
  }

  /** Deleting an event removes only the event: its tickets stay, and the admin listing then
      shows each of them as "Deleted Event" without a date. */
  lemma DeletedEventTicketsListed(db: Db, id: EventId)
    ensures EventRoutes.DeleteEvent(db, id).tickets == db.tickets
    ensures |AdminListing(EventRoutes.DeleteEvent(db, id))| == |db.tickets|
    ensures forall j :: 0 <= j < |db.tickets| && db.tickets[j].event == id ==>
      AdminListing(EventRoutes.DeleteEvent(db, id))[j].eventTitle == DeletedEventTitle &&
      AdminListing(EventRoutes.DeleteEvent(db, id))[j].eventDate == None
  {
  }

  /** The patch that sets only the status, as PUT /:id writes it without validation. */
  function StatusPatch(status: string): EventRoutes.EventPatch {
    EventRoutes.EventPatch(None, None, None, None, None, Some(status), None)
  }

  /** Once an update has stored an unknown status, saving the event fails its validators:
      booking one of its free seats is SaveRejected and changes nothing. */
  lemma UnvalidatedStatusBlocksBooking(db: Db, id: EventId, status: string, user: UserId, seatNo: string, now: nat)
    requires id in db.events && status !in Statuses
    requires !HasBooking(db.tickets, user, id) && SeatBookable(db.events[id].seats, seatNo)
    ensures var db' := EventRoutes.UpdateEvent(db, id, StatusPatch(status)).0;
      Book(db', user, id, seatNo, now) == (db', BookOutcome.SaveRejected)
  {
    EventRoutes.UpdateEventSkipsValidation(db, id, status);
  }

  /** Likewise cancelling a ticket of that event is SaveRejected: the seat stays booked and the
      ticket is kept. */
  lemma UnvalidatedStatusBlocksCancel(db: Db, i: nat, status: string)
    requires Valid(db) && i < |db.tickets| && db.tickets[i].event in db.events && status !in Statuses
    ensures var db' := EventRoutes.UpdateEvent(db, db.tickets[i].event, StatusPatch(status)).0;
      Cancel(db', db.tickets[i].id, db.tickets[i].user) == (db', CancelOutcome.SaveRejected)
  {
    var t := db.tickets[i];
    var db' := EventRoutes.UpdateEvent(db, t.event, StatusPatch(status)).0;
    EventRoutes.UpdateEventSkipsValidation(db, t.event, status);
    assert db'.tickets == db.tickets;
    assert db'.events[t.event].seats == db.events[t.event].seats;
    assert HasSeat(db.events[t.event].seats, t.seatNo);
    forall j | 0 <= j < i ensures !Owns(db.tickets[j], t.id, t.user) {
      assert db.tickets[j].id != t.id;
    }
    assert FindOwned(db'.tickets, t.id, t.user) == Some(i);
  }

  /** Under the invariant each ticket filter the handlers use matches at most one ticket: by
      user and event (booking, and check-in, which adds the seat) and by id and holder
      (cancelling). So taking the first match decides nothing. */
  lemma TicketFiltersUnique(db: Db, i: nat, j: nat, user: UserId, e: EventId, ticketId: TicketId)
    requires Valid(db) && i < |db.tickets| && j < |db.tickets|
    ensures (db.tickets[i].user == user && db.tickets[i].event == e &&
             db.tickets[j].user == user && db.tickets[j].event == e) ==> i == j
    ensures Owns(db.tickets[i], ticketId, user) && Owns(db.tickets[j], ticketId, user) ==> i == j
  {
  }
}
