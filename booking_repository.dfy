/**
 * The bookings table and its operations (src/server/repositories/bookings.ts): insert,
 * status updates, declining a slot's competing requests, deletion, the lookups and the
 * pending figure of the admin overview.
 */
module BookingRepository {
  import opened Wrappers
  import opened Seqs
  import opened Types
  import opened Store
  import opened SlotRepository

  /** The row `createBooking` inserts: `pending`, stamped with the id the store assigns. */
  function NewBooking(id: Id, slotId: Id, visitor: Visitor, notes: Option<string>): (b: Booking)
    ensures b.status == Pending && b.id == id && b.slotId == slotId && b.notes == notes
  {
    Booking(id, slotId, visitor, notes, Pending, id)
  }

  /**
   * `createBooking`: inserts one `pending` booking (`notes` null when absent). The insert
   * fails when the slot row is missing (the `slot_id` foreign key) or when the store
   * reports an error, which `fails` stands for; a failed insert changes nothing.
   */
  method CreateBooking(db: Database, slotId: Id, visitor: Visitor, notes: Option<string>, fails: bool)
    returns (r: Result<Booking, Failure>)
    requires db.Valid()
    modifies db`bookings, db`nextId
    ensures db.Valid()
    ensures fails || FindSlot(db.slots, slotId).None? ==>
      r == Err(BookingNotCreated) && db.bookings == old(db.bookings) && db.nextId == old(db.nextId)
    ensures !fails && FindSlot(db.slots, slotId).Some? ==>
      && r == Ok(NewBooking(old(db.nextId), slotId, visitor, notes))
      && db.bookings == old(db.bookings) + [r.value]
      && db.nextId == old(db.nextId) + 1
  {
    var slot := FindSlot(db.slots, slotId);
    if fails || slot.None? {
      return Err(BookingNotCreated);
    }
    var b := NewBooking(db.nextId, slotId, visitor, notes);
    db.bookings := db.bookings + [b];
    db.nextId := db.nextId + 1;
    r := Ok(b);
  }

  function FindBooking(bookings: seq<Booking>, id: Id): (r: Option<Booking>)
    ensures r.Some? ==> r.value in bookings && r.value.id == id
    ensures r.None? ==> forall i :: 0 <= i < |bookings| ==> bookings[i].id != id
  {
    if bookings == [] then None
    else if bookings[0].id == id then Some(bookings[0])
    else FindBooking(bookings[1..], id)
  }

  /** Two versions of the table with the same rows, up to status. */
  ghost predicate SameBookingRows(a: seq<Booking>, b: seq<Booking>) {
    |a| == |b| &&
    forall i :: 0 <= i < |a| ==> a[i].id == b[i].id && a[i].slotId == b[i].slotId && a[i].createdAt == b[i].createdAt
  }

  lemma SameBookingRowsValid(slots: seq<Slot>, a: seq<Booking>, b: seq<Booking>, rules: seq<AvailabilityRule>, nextId: nat)
    requires TablesValid(slots, a, rules, nextId) && SameBookingRows(a, b)
    ensures TablesValid(slots, b, rules, nextId)
  {
    assert forall i, j :: 0 <= i < j < |b| ==> b[i].id == a[i].id && b[j].id == a[j].id;
  }

  /** The table after `updateBookingStatus(id, status)`: only the status of that booking changes. */
  function SetBookingStatus(bookings: seq<Booking>, id: Id, status: BookingStatus): (r: seq<Booking>)
    ensures |r| == |bookings|
    ensures forall i :: 0 <= i < |r| ==>
      r[i] == if bookings[i].id == id then bookings[i].(status := status) else bookings[i]
  {
    if bookings == [] then []
    else
      var head := if bookings[0].id == id then bookings[0].(status := status) else bookings[0];
      [head] + SetBookingStatus(bookings[1..], id, status)
  }

  /** `updateBookingStatus`: a missing booking is an error and changes nothing. */
  method UpdateBookingStatus(db: Database, id: Id, status: BookingStatus) returns (r: Result<Booking, Failure>)
    requires db.Valid()
    modifies db`bookings
    ensures db.Valid()
    ensures match FindBooking(old(db.bookings), id)
      case None => r == Err(BookingNotFound) && db.bookings == old(db.bookings)
      case Some(b) => r == Ok(b.(status := status)) && db.bookings == SetBookingStatus(old(db.bookings), id, status)
  {
    var found := FindBooking(db.bookings, id);
    if found.None? {
      return Err(BookingNotFound);
    }
    SameBookingRowsValid(db.slots, db.bookings, SetBookingStatus(db.bookings, id, status), db.rules, db.nextId);
    db.bookings := SetBookingStatus(db.bookings, id, status);
    r := Ok(found.value.(status := status));
  }

  predicate ShouldDecline(b: Booking, slotId: Id, exclude: Option<Id>) {
    b.slotId == slotId && b.status == Pending && (exclude.None? || b.id != exclude.value)
  }

  /** The table after `declineBookingsForSlot(slotId, excludeBookingId)`. */
  function DeclinedForSlot(bookings: seq<Booking>, slotId: Id, exclude: Option<Id>): (r: seq<Booking>)
    ensures |r| == |bookings|
    ensures forall i :: 0 <= i < |r| ==>
      r[i] == if ShouldDecline(bookings[i], slotId, exclude) then bookings[i].(status := Declined) else bookings[i]
  {
    if bookings == [] then []
    else
      var head := if ShouldDecline(bookings[0], slotId, exclude) then bookings[0].(status := Declined) else bookings[0];
      [head] + DeclinedForSlot(bookings[1..], slotId, exclude)
  }

  /**
   * Exactly the slot's pending bookings other than the excluded one become `declined`;
   * afterwards the slot has no pending booking besides the excluded one.
   */
  lemma DeclinedExactly(bookings: seq<Booking>, slotId: Id, exclude: Option<Id>)
    ensures SameBookingRows(bookings, DeclinedForSlot(bookings, slotId, exclude))
    ensures forall i :: 0 <= i < |bookings| ==>
      (DeclinedForSlot(bookings, slotId, exclude)[i] != bookings[i] <==> ShouldDecline(bookings[i], slotId, exclude))
    ensures forall i :: 0 <= i < |bookings| ==>
      !ShouldDecline(DeclinedForSlot(bookings, slotId, exclude)[i], slotId, exclude)
  {
  }

  method DeclineBookingsForSlot(db: Database, slotId: Id, exclude: Option<Id>)
    requires db.Valid()
    modifies db`bookings
    ensures db.Valid()
    ensures db.bookings == DeclinedForSlot(old(db.bookings), slotId, exclude)
  {
    DeclinedExactly(db.bookings, slotId, exclude);
    SameBookingRowsValid(db.slots, db.bookings, DeclinedForSlot(db.bookings, slotId, exclude), db.rules, db.nextId);
    db.bookings := DeclinedForSlot(db.bookings, slotId, exclude);
  }

  /** The table after deleting the bookings whose id is listed. */
  function WithoutIds(bookings: seq<Booking>, ids: seq<Id>): (r: seq<Booking>)
    ensures forall b :: b in r <==> b in bookings && b.id !in ids
  {
    Filter(bookings, (b: Booking) => b.id !in ids)
  }

  lemma WithoutIdsValid(slots: seq<Slot>, bookings: seq<Booking>, ids: seq<Id>, rules: seq<AvailabilityRule>, nextId: nat)
    requires TablesValid(slots, bookings, rules, nextId)
    ensures TablesValid(slots, WithoutIds(bookings, ids), rules, nextId)
  {
    var r := WithoutIds(bookings, ids);
    FilterPairwise(bookings, (b: Booking) => b.id !in ids, (a: Booking, c: Booking) => a.id != c.id);
    assert forall i :: 0 <= i < |r| ==> r[i] in bookings;
  }

  /** Deleting the ids of the rows appended after `kept`, and of none of `kept`, restores `kept`. */
  lemma WithoutIdsRestores(kept: seq<Booking>, added: seq<Booking>, ids: seq<Id>)
    requires forall i :: 0 <= i < |kept| ==> kept[i].id !in ids
    requires forall i :: 0 <= i < |added| ==> added[i].id in ids
    ensures WithoutIds(kept + added, ids) == kept
  {
    var p := (b: Booking) => b.id !in ids;
    FilterAppend(kept, added, p);
    FilterKeepsAll(kept, p);
    FilterDropsAll(added, p);
  }

  /**
   * `deleteBookingsByIds`: nothing happens for an empty list; a failure of the delete,
   * which `fails` stands for, is only logged and leaves the table as it was.
   */
  method DeleteBookingsByIds(db: Database, ids: seq<Id>, fails: bool)
    requires db.Valid()
    modifies db`bookings
    ensures db.Valid()
    ensures db.bookings == if ids == [] || fails then old(db.bookings) else WithoutIds(old(db.bookings), ids)
  {
    if |ids| == 0 {
      return;
    }
    if !fails {
      WithoutIdsValid(db.slots, db.bookings, ids, db.rules, db.nextId);
      db.bookings := WithoutIds(db.bookings, ids);
    }
  }

  /** `fetchBookingsBySlot`: every booking on the slot, whatever its status. */
  function BookingsBySlot(bookings: seq<Booking>, slotId: Id): (r: seq<Booking>)
    ensures forall b :: b in r <==> b in bookings && b.slotId == slotId
  {
    Filter(bookings, (b: Booking) => b.slotId == slotId)
  }

  /** `fetchBookingsByIds`: the listed bookings by ascending `created_at`; none for no ids. */
  function BookingsByIds(bookings: seq<Booking>, ids: seq<Id>): (r: seq<Booking>)
    ensures forall b :: b in r <==> b in bookings && b.id in ids
    ensures SortedBy(r, CreatedAtOf)
    ensures ids == [] ==> r == []
  {
    if ids == [] then [] else SortBy(Filter(bookings, (b: Booking) => b.id in ids), CreatedAtOf)
  }

  /** The studio of the booking's slot is `studioId` (the inner join on `slots` plus the filter on it). */
  predicate InStudio(slots: seq<Slot>, b: Booking, studioId: Id) {
    match FindSlot(slots, b.slotId)
    case Some(s) => s.studioId == studioId
    case None => false
  }

  predicate PendingIn(slots: seq<Slot>, b: Booking, studioId: Option<Id>) {
    b.status == Pending && (studioId.None? || InStudio(slots, b, studioId.value))
  }

  /**
   * `fetchPendingBookings(studioId?)`: the pending bookings by ascending `created_at`;
   * with a studio, only those whose slot belongs to it.
   */
  function PendingBookings(bookings: seq<Booking>, slots: seq<Slot>, studioId: Option<Id>): (r: seq<Booking>)
    ensures forall b :: b in r <==> b in bookings && PendingIn(slots, b, studioId)
    ensures SortedBy(r, CreatedAtOf)
    ensures |r| == |Filter(bookings, (b: Booking) => PendingIn(slots, b, studioId))|
  {
    SortBy(Filter(bookings, (b: Booking) => PendingIn(slots, b, studioId)), CreatedAtOf)
  }

  predicate HasSlot(slots: seq<Slot>, b: Booking) {
    FindSlot(slots, b.slotId).Some?
  }

  predicate CountedPending(slots: seq<Slot>, b: Booking, studioId: Option<Id>) {
    b.status == Pending && HasSlot(slots, b) && (studioId.None? || InStudio(slots, b, studioId.value))
  }

  /**
   * The `pending` figure of `getAdminOverviewStats(studioId?)`: the number of pending
   * bookings joined (inner) with their slot, restricted to the studio when one is given.
   */
  function PendingCount(bookings: seq<Booking>, slots: seq<Slot>, studioId: Option<Id>): nat {
    |Filter(bookings, (b: Booking) => CountedPending(slots, b, studioId))|
  }

  /**
   * For a studio, the overview figure is the length of the pending list; across all studios
   * it can only be smaller (bookings whose slot row is gone are listed but not counted), and
   * equal when every booking's slot exists.
   */
  lemma PendingCountMatchesList(bookings: seq<Booking>, slots: seq<Slot>, studioId: Option<Id>)
    ensures studioId.Some? ==> PendingCount(bookings, slots, studioId) == |PendingBookings(bookings, slots, studioId)|
    ensures PendingCount(bookings, slots, studioId) <= |PendingBookings(bookings, slots, studioId)|
    ensures (forall i :: 0 <= i < |bookings| ==> HasSlot(slots, bookings[i])) ==>
      PendingCount(bookings, slots, studioId) == |PendingBookings(bookings, slots, studioId)|
  {
    var listed := Filter(bookings, (b: Booking) => PendingIn(slots, b, studioId));
    var counted := Filter(bookings, (b: Booking) => CountedPending(slots, b, studioId));
    if studioId.Some? || forall i :: 0 <= i < |bookings| ==> HasSlot(slots, bookings[i]) {
      FilterCongruent(bookings, (b: Booking) => PendingIn(slots, b, studioId), (b: Booking) => CountedPending(slots, b, studioId));
    }
    FilterSubset(bookings, (b: Booking) => CountedPending(slots, b, studioId), (b: Booking) => PendingIn(slots, b, studioId));
  }
}
