/** The event document: seat and event schema, field defaults and enumerations, and the
    pre-save hook that generates an event's seats. */
module EventModel {
  import opened Wrappers
  import Decimal

  /** A seat sub-document. `isBooked` defaults to false. */
  datatype Seat = Seat(seatNo: string, isBooked: bool)

  /** A stored event document. Mongoose gives every array path an empty array by default, so
      a stored event always has a seat list. */
  datatype Event = Event(
    title: string,
    date: nat,
    price: int,
    totalSeats: int,
    seats: seq<Seat>,
    status: string,
    popularity: string)

  const Statuses: set<string> := {"Upcoming", "Pending", "Closed"}
  const Popularities: set<string> := {"New", "Trending", "Popular"}

  const DefaultPrice: int := 0
  const DefaultTotalSeats: int := 50
  const DefaultStatus: string := "Upcoming"
  const DefaultPopularity: string := "New"

  /** The fields handed to `Event.create`; None is a field left undefined. */
  datatype EventFields = EventFields(
    title: Option<string>,
    date: Option<nat>,
    price: Option<int>,
    totalSeats: Option<int>,
    status: Option<string>,
    popularity: Option<string>)

  /** The number of elements `Array.from({length: n})` creates for an integral `n` that does
      not exceed `MaxArrayLength`: a negative length is clamped to zero. */
  function SeatCount(totalSeats: int): (n: nat)
    ensures totalSeats >= 0 ==> n == totalSeats
    ensures totalSeats < 0 ==> n == 0
  {
    if totalSeats < 0 then 0 else totalSeats
  }

  /** The number of the seat at 0-based position `i`: "S1", "S2", ... */
  function SeatLabel(i: nat): string {
    "S" + Decimal.Digits(i + 1)
  }

  /** The 0-based position a seat number stands for, when it has the form "S<k>" with k >= 1. */
  function LabelIndex(s: string): Option<nat> {
    if |s| == 0 || s[0] != 'S' then None
    else match Decimal.Parse(s[1..])
      case Some(k) => if k >= 1 then Some(k - 1) else None
      case None => None
  }

  /** Seat numbers can be read back as positions. */
  lemma LabelIndexOfSeatLabel(i: nat)
    ensures LabelIndex(SeatLabel(i)) == Some(i)
  {
    assert SeatLabel(i)[1..] == Decimal.Digits(i + 1);
    Decimal.ParseDigits(i + 1);
  }

  /** The seats the hook generates for a new event with `totalSeats` capacity. */
  function InitialSeats(totalSeats: int): seq<Seat> {
    seq(SeatCount(totalSeats), i requires 0 <= i => Seat(SeatLabel(i), false))
  }

  predicate DistinctSeatNumbers(seats: seq<Seat>) {
    forall a, b :: 0 <= a < b < |seats| ==> seats[a].seatNo != seats[b].seatNo
  }

  /** Generated seats: exactly `totalSeats` of them (none for a negative capacity), seat i is
      numbered "S" followed by i + 1 in decimal, all free, numbers pairwise distinct. */
  lemma InitialSeatsWellFormed(totalSeats: int)
    ensures |InitialSeats(totalSeats)| == SeatCount(totalSeats)
    ensures forall i :: 0 <= i < |InitialSeats(totalSeats)| ==>
      InitialSeats(totalSeats)[i].seatNo == SeatLabel(i) && !InitialSeats(totalSeats)[i].isBooked
    ensures DistinctSeatNumbers(InitialSeats(totalSeats))
  {
    var seats := InitialSeats(totalSeats);
    forall a, b | 0 <= a < b < |seats| ensures seats[a].seatNo != seats[b].seatNo {
      LabelIndexOfSeatLabel(a);
      LabelIndexOfSeatLabel(b);
    }
  }

  /** The largest length a JavaScript array can have: `Array.from` with a longer `length`
      throws a RangeError. */
  const MaxArrayLength: nat := 0xFFFF_FFFF

  /** What the pre-save hook leaves in the seat path, or the RangeError it throws. */
  datatype HookOutcome = SeatsSet(seats: Option<seq<Seat>>) | RangeError

  /** The pre-save hook: a new document whose seat list is missing or empty gets generated
      seats, which throws when the capacity exceeds the array length limit; any other document
      keeps its seats. */
  function PreSave(isNew: bool, seats: Option<seq<Seat>>, totalSeats: int): (r: HookOutcome)
    ensures r.RangeError? <==> isNew && (seats.None? || |seats.value| == 0) && totalSeats > MaxArrayLength
    ensures isNew && (seats.None? || |seats.value| == 0) && totalSeats <= MaxArrayLength ==>
      r == SeatsSet(Some(InitialSeats(totalSeats)))
    ensures !isNew || (seats.Some? && |seats.value| > 0) ==> r == SeatsSet(seats)
  {
    if isNew && (seats.None? || |seats.value| == 0) then
      if totalSeats > MaxArrayLength then RangeError else SeatsSet(Some(InitialSeats(totalSeats)))
    else SeatsSet(seats)
  }

  /** Mongoose's `required` check on a string path rejects a missing and an empty string. */
  predicate RequiredString(s: Option<string>) {
    s.Some? && |s.value| > 0
  }

  /** An enum path accepts a missing value (the default applies) or one of its values. */
  predicate EnumOk(v: Option<string>, values: set<string>) {
    v.None? || v.value in values
  }

  /** The validators `save` runs on a document as a whole, loaded or new: the title is present
      and non-empty, and status and popularity are in their enumerations. */
  predicate PassesValidators(ev: Event) {
    && ev.title != ""
    && ev.status in Statuses
    && ev.popularity in Popularities
  }

  /** The validators `save` runs on a stored document accept exactly what `Event.create` would
      accept from the same field values, for a capacity the pre-save hook can generate. */
  lemma ValidatorsMatchCreate(ev: Event)
    requires ev.totalSeats <= MaxArrayLength
    ensures PassesValidators(ev) <==>
      CreateDocument(EventFields(Some(ev.title), Some(ev.date), Some(ev.price), Some(ev.totalSeats),
                                 Some(ev.status), Some(ev.popularity))).Some?
  {
  }

  /** `Event.create(fields)`: apply the schema defaults, run the validators, then the pre-save
      hook on the new document, which has no seats. None is the error the promise rejects with:
      a failed validator, or the hook's RangeError for a capacity above the array limit. */
  function CreateDocument(f: EventFields): (r: Option<Event>)
    ensures r.Some? <==>
      && RequiredString(f.title) && f.date.Some? && EnumOk(f.status, Statuses) && EnumOk(f.popularity, Popularities)
      && f.totalSeats.GetOr(DefaultTotalSeats) <= MaxArrayLength
    ensures r.Some? ==>
      && r.value.title == f.title.value
      && r.value.date == f.date.value
      && r.value.price == f.price.GetOr(DefaultPrice)
      && r.value.totalSeats == f.totalSeats.GetOr(DefaultTotalSeats)
      && r.value.status == f.status.GetOr(DefaultStatus)
      && r.value.popularity == f.popularity.GetOr(DefaultPopularity)
      && r.value.seats == InitialSeats(r.value.totalSeats)
  {
    if !RequiredString(f.title) || f.date.None? || !EnumOk(f.status, Statuses) || !EnumOk(f.popularity, Popularities) then
      None
    else
      var totalSeats := f.totalSeats.GetOr(DefaultTotalSeats);
      match PreSave(true, None, totalSeats)
      case RangeError => None
      case SeatsSet(seats) =>
        Some(Event(f.title.value, f.date.value, f.price.GetOr(DefaultPrice), totalSeats, seats.value,
                   f.status.GetOr(DefaultStatus), f.popularity.GetOr(DefaultPopularity)))
  }

  /** What every event created through the schema satisfies. */
  predicate WellFormedEvent(ev: Event) {
    && PassesValidators(ev)
    && |ev.seats| == SeatCount(ev.totalSeats)
    && DistinctSeatNumbers(ev.seats)
  }

  /** A created document has its enumerated fields in range and a well-formed, all-free seat
      list of the declared capacity. */
  lemma CreatedDocumentWellFormed(f: EventFields)
    requires CreateDocument(f).Some?
    ensures WellFormedEvent(CreateDocument(f).value)
    ensures forall k :: 0 <= k < |CreateDocument(f).value.seats| ==> !CreateDocument(f).value.seats[k].isBooked
  {
    InitialSeatsWellFormed(CreateDocument(f).value.totalSeats);
  }
}
