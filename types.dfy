/**
 * The records the booking engine stores and passes around (src/types/index.ts).
 * Row ids, studio ids and booking ids are natural numbers; instants are minutes.
 */
module Types {
  import opened Wrappers
  import opened Time

  type Id = nat

  datatype SlotStatus = Available | Requested | Approved | Blocked
  datatype BookingStatus = Pending | Approved | Declined | Canceled
  datatype RuleType = Weekly | Exception

  /** `created_via`: a slot materialised from a rule or added by hand. */
  datatype CreatedVia = ByRule | Manual

  datatype Slot = Slot(
    id: Id,
    studioId: Id,
    startAt: Instant,
    endAt: Instant,
    status: SlotStatus,
    holdExpiresAt: Option<Instant>,
    createdVia: CreatedVia)

  /** A slot row before the store assigns its id (`Omit<Slot, "id">`). */
  datatype SlotDraft = SlotDraft(
    studioId: Id,
    startAt: Instant,
    endAt: Instant,
    status: SlotStatus,
    holdExpiresAt: Option<Instant>,
    createdVia: CreatedVia)

  /** The unique key of the slots table: `(studio_id, start_at, end_at)`. */
  datatype SlotKey = SlotKey(studioId: Id, startAt: Instant, endAt: Instant)

  function KeyOf(s: Slot): SlotKey {
    SlotKey(s.studioId, s.startAt, s.endAt)
  }

  function DraftKey(d: SlotDraft): SlotKey {
    SlotKey(d.studioId, d.startAt, d.endAt)
  }

  /** The row the store creates from a draft, under the id it assigns. */
  function SlotOf(d: SlotDraft, id: Id): (s: Slot)
    ensures KeyOf(s) == DraftKey(d) && s.id == id && DraftOf(s) == d
  {
    Slot(id, d.studioId, d.startAt, d.endAt, d.status, d.holdExpiresAt, d.createdVia)
  }

  function DraftOf(s: Slot): SlotDraft {
    SlotDraft(s.studioId, s.startAt, s.endAt, s.status, s.holdExpiresAt, s.createdVia)
  }

  function StartOf(s: Slot): int {
    s.startAt
  }

  datatype Visitor = Visitor(name: string, email: string, phone: string)

  /** A booking; `createdAt` is the store's insertion stamp, increasing with every insert. */
  datatype Booking = Booking(
    id: Id,
    slotId: Id,
    visitor: Visitor,
    notes: Option<string>,
    status: BookingStatus,
    createdAt: nat)

  function CreatedAtOf(b: Booking): int {
    b.createdAt
  }

  datatype AvailabilityRule = AvailabilityRule(
    id: Id,
    studioId: Id,
    ruleType: RuleType,
    weekday: Option<int>,
    date: Option<Day>,
    startTime: string,
    endTime: string,
    isOpen: bool,
    createdBy: Option<string>)

  /** The errors the services raise. */
  datatype Failure =
    | NoSlotSelected    // "Please select at least one slot."
    | SlotsMissing      // "One or more selected slots no longer exist."
    | NotBookable       // "Some slots are no longer bookable."
    | OnHold            // "Some slots are currently on hold while pending approval."
    | BookingNotCreated // the insert of a booking failed
    | BookingNotFound   // the booking lookup found no row
    | SlotDataMissing   // "Slot data missing for booking"
    | SlotNotFound      // a slot update matched no row
    | DuplicateSlot     // a manual slot collides with the unique key
}
