/** The admission token carried in a ticket's QR code: a signed payload naming the holder,
    the event and the seat, with an expiry. Signing is abstract: `Signed` is a ticket token
    signed with the server's key, and `Forged` is anything whose signature does not check.
    Session tokens, which the same key signs with a different payload, have no value here.
    Times are seconds on a clock passed in by the caller. */
module Admission {
  import opened Wrappers
  import opened Ids

  datatype Payload = Payload(userId: UserId, eventId: EventId, seatNo: string, expiry: nat)

  datatype Token = Signed(payload: Payload) | Forged(text: string)

  /** The "3d" lifetime given when a ticket's token is signed, in seconds. */
  const TokenLifetime: nat := 3 * 24 * 60 * 60

  /** Sign a payload for (user, event, seat) at time `now`. The token verifies exactly until
      `now + TokenLifetime` and then yields the bound user, event and seat. */
  function Issue(user: UserId, event: EventId, seatNo: string, now: nat): (t: Token)
    ensures forall later: nat :: Verify(t, later).Some? <==> later < now + TokenLifetime
    ensures forall later: nat :: Verify(t, later).Some? ==>
      Verify(t, later).value.userId == user &&
      Verify(t, later).value.eventId == event &&
      Verify(t, later).value.seatNo == seatNo
  {
    Signed(Payload(user, event, seatNo, now + TokenLifetime))
  }

  /** Check signature and expiry; the token store is not consulted. A token is rejected once
      the clock has reached its expiry. */
  function Verify(t: Token, now: nat): (r: Option<Payload>)
    ensures r.Some? <==> t.Signed? && now < t.payload.expiry
    ensures r.Some? ==> r.value == t.payload
  {
    if t.Signed? && now < t.payload.expiry then Some(t.payload) else None
  }
}
