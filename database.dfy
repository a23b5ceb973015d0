/**
 * The in-memory store standing in for the database: the `slots`, `bookings` and
 * `availability_rules` tables and the generator of fresh row ids.
 */
module Store {
  import opened Types
  import opened Time

  ghost predicate UniqueSlotIds(slots: seq<Slot>) {
    forall i, j :: 0 <= i < j < |slots| ==> slots[i].id != slots[j].id
  }

  /** The unique index on `(studio_id, start_at, end_at)`. */
  ghost predicate UniqueKeys(slots: seq<Slot>) {
    forall i, j :: 0 <= i < j < |slots| ==> KeyOf(slots[i]) != KeyOf(slots[j])
  }

  ghost predicate UniqueBookingIds(bookings: seq<Booking>) {
    forall i, j :: 0 <= i < j < |bookings| ==> bookings[i].id != bookings[j].id
  }

  /** A stored rule has well-formed times. */
  predicate RuleWellFormed(r: AvailabilityRule) {
    IsClockTime(r.startTime) && IsClockTime(r.endTime)
  }

  /**
   * What the store guarantees about its tables: unique slot ids and keys, unique booking
   * ids, well-formed rules, and every id in use (including a booking's `slot_id`, which is
   * a foreign key) below the next id to be handed out.
   */
  ghost predicate TablesValid(slots: seq<Slot>, bookings: seq<Booking>, rules: seq<AvailabilityRule>, nextId: nat) {
    && UniqueSlotIds(slots)
    && UniqueKeys(slots)
    && (forall i :: 0 <= i < |slots| ==> slots[i].id < nextId)
    && UniqueBookingIds(bookings)
    && (forall i :: 0 <= i < |bookings| ==> bookings[i].id < nextId && bookings[i].slotId < nextId)
    && (forall i :: 0 <= i < |rules| ==> rules[i].id < nextId && RuleWellFormed(rules[i]))
  }

  class Database {
    var slots: seq<Slot>
    var bookings: seq<Booking>
    var rules: seq<AvailabilityRule>
    var nextId: nat

    ghost predicate Valid()
      reads this
    {
      TablesValid(slots, bookings, rules, nextId)
    }

    constructor ()
      ensures Valid()
      ensures slots == [] && bookings == [] && rules == [] && nextId == 0
    {
      slots := [];
      bookings := [];
      rules := [];
      nextId := 0;
    }
  }
}
