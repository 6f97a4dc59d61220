/** Document identifiers. MongoDB ObjectIds are modelled as naturals drawn from a counter, so
    an identifier is never handed out twice. */
module Ids {
  type UserId = nat
  type EventId = nat
  type TicketId = nat
}
