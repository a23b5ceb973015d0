/**
 * The agreement between the `slots` and `bookings` tables that the booking workflow is
 * built to keep: a slot carries at most one approved booking, the slot of an approved
 * booking is taken (`approved`, or `blocked` by an overlapping approval), and no booking of
 * a slot stays pending beside an approved one. Each operation of the booking service keeps
 * it, except that approving a booking that is no longer pending can break it.
 */
module Consistency {
  import opened Wrappers
  import opened Seqs
  import opened Time
  import opened Types
  import opened Store
  import opened SlotRepository
  import opened BookingRepository
  import opened BookingService

  ghost predicate SingleApproval(bookings: seq<Booking>) {
    forall a, c :: a in bookings && c in bookings && a.status == BookingStatus.Approved && c.status == BookingStatus.Approved && a.slotId == c.slotId
      ==> a == c
  }

  ghost predicate ApprovedSlotsTaken(slots: seq<Slot>, bookings: seq<Booking>) {
    forall a, s :: a in bookings && s in slots && a.status == BookingStatus.Approved && s.id == a.slotId ==>
      s.status == SlotStatus.Approved || s.status == SlotStatus.Blocked
  }

  ghost predicate NoPendingBesideApproved(bookings: seq<Booking>) {
    forall a, c :: a in bookings && c in bookings && a.status == BookingStatus.Approved && c.status == Pending ==>
      a.slotId != c.slotId
  }

  ghost predicate Consistent(slots: seq<Slot>, bookings: seq<Booking>) {
    SingleApproval(bookings) && ApprovedSlotsTaken(slots, bookings) && NoPendingBesideApproved(bookings)
  }

  /** No approved booking names the slot id. */
  ghost predicate Free(bookings: seq<Booking>, slotId: Id) {
    forall a :: a in bookings && a.status == BookingStatus.Approved ==> a.slotId != slotId
  }

  /** A row that is neither approved nor blocked names a slot no approved booking holds. */
  lemma OpenRowIsFree(slots: seq<Slot>, bookings: seq<Booking>, s: Slot)
    requires Consistent(slots, bookings) && s in slots
    requires s.status == Available || s.status == Requested
    ensures Free(bookings, s.id)
  {
  }

  /** Re-marking only rows that no approved booking holds keeps the tables consistent. */
  lemma SetStatusKeepsConsistent(slots: seq<Slot>, bookings: seq<Booking>, ids: set<Id>, status: SlotStatus, hold: Option<Instant>)
    requires Consistent(slots, bookings)
    requires forall id :: id in ids ==> Free(bookings, id)
    ensures Consistent(SetStatus(slots, ids, status, hold), bookings)
  {
    var r := SetStatus(slots, ids, status, hold);
    forall a, s | a in bookings && s in r && a.status == BookingStatus.Approved && s.id == a.slotId
      ensures s.status == SlotStatus.Approved || s.status == SlotStatus.Blocked
    {
      var j :| 0 <= j < |r| && r[j] == s;
      assert slots[j] in slots;
    }
  }

  /** Releasing expired holds keeps the tables consistent: a held row is not taken. */
  lemma ReleaseKeepsConsistent(slots: seq<Slot>, bookings: seq<Booking>, now: Instant)
    requires Consistent(slots, bookings)
    ensures Consistent(Released(slots, now), bookings)
  {
    var r := Released(slots, now);
    forall a, s | a in bookings && s in r && a.status == BookingStatus.Approved && s.id == a.slotId
      ensures s.status == SlotStatus.Approved || s.status == SlotStatus.Blocked
    {
      var j :| 0 <= j < |r| && r[j] == s;
      assert slots[j] in slots;
    }
  }

  /** Dropping bookings, or turning them declined, keeps the tables consistent. */
  lemma FewerActiveKeepsConsistent(slots: seq<Slot>, bookings: seq<Booking>, after: seq<Booking>)
    requires Consistent(slots, bookings)
    requires forall b :: b in after && (b.status == BookingStatus.Approved || b.status == Pending) ==> b in bookings
    ensures Consistent(slots, after)
  {
  }

  /** Adding pending bookings on slots no approved booking holds keeps the tables consistent. */
  lemma AddPendingKeepsConsistent(slots: seq<Slot>, bookings: seq<Booking>, added: seq<Booking>)
    requires Consistent(slots, bookings)
    requires forall b :: b in added ==> b.status == Pending && Free(bookings, b.slotId)
    ensures Consistent(slots, bookings + added)
  {
  }

  /**
   * `requestBookings` keeps the tables consistent whatever the outcome: the rows it holds
   * or resets passed the bookability check, so no approved booking holds them, and the
   * bookings it adds are pending.
   */
  lemma RequestKeepsConsistent(slots: seq<Slot>, bookings: seq<Booking>, nextId: nat, slotIds: seq<Id>,
                               visitor: Visitor, notes: Option<string>, now: Instant, failing: set<Id>, cleanupFails: bool)
    requires Consistent(slots, bookings)
    ensures Consistent(RequestEffect(slots, bookings, nextId, slotIds, visitor, notes, now, failing, cleanupFails).slots,
                       RequestEffect(slots, bookings, nextId, slotIds, visitor, notes, now, failing, cleanupFails).bookings)
  {
    var released := Released(slots, now);
    ReleaseKeepsConsistent(slots, bookings, now);
    var unique := Dedupe(slotIds);
    if unique != [] && |Selected(released, unique)| == |unique| {
      var selected := Selected(released, unique);
      AttemptKeepsConsistent(released, bookings, nextId, selected, visitor, notes, now, failing, cleanupFails);
    }
  }

  lemma AttemptKeepsConsistent(released: seq<Slot>, bookings: seq<Booking>, nextId: nat, selected: seq<Slot>,
                               visitor: Visitor, notes: Option<string>, now: Instant, failing: set<Id>, cleanupFails: bool)
    requires Consistent(released, bookings)
    requires forall s :: s in selected ==> s in released
    ensures Consistent(Attempt(released, bookings, nextId, selected, visitor, notes, now, failing, cleanupFails).slots,
                       Attempt(released, bookings, nextId, selected, visitor, notes, now, failing, cleanupFails).bookings)
  {
    var hold := now + HoldDurationMinutes;
    var k := StopIndex(selected, now, failing);
    var done := selected[..k];
    var created := NewBookings(done, visitor, notes, nextId);
    var held := HeldIds(selected, k, now);
    HeldAreFree(released, bookings, selected, now, failing);
    SetStatusKeepsConsistent(released, bookings, held, Requested, Some(hold));
    var slots1 := SetStatus(released, held, Requested, Some(hold));
    assert IdsOf(done) <= held;
    SetStatusKeepsConsistent(slots1, bookings, IdsOf(done), Available, None);
    var slots2 := if k == |selected| then slots1 else SetStatus(slots1, IdsOf(done), Available, None);
    assert k == |selected| ==> held == IdsOf(selected) by {
      assert k == |selected| ==> done == selected;
    }
    NewBookingsAt(done, visitor, notes, nextId);
    forall b | b in created
      ensures b.status == Pending && Free(bookings, b.slotId)
    {
      var j :| 0 <= j < |created| && created[j] == b;
      assert done[j] in done;
    }
    AddPendingKeepsConsistent(slots2, bookings, created);
    if k < |selected| && !(k == 0 || cleanupFails) {
      FewerActiveKeepsConsistent(slots2, bookings + created, WithoutIds(bookings + created, BookingIds(created)));
    }
  }

  /** Every slot id the attempt holds passed the bookability check, so no approved booking holds it. */
  lemma HeldAreFree(released: seq<Slot>, bookings: seq<Booking>, selected: seq<Slot>, now: Instant, failing: set<Id>)
    requires Consistent(released, bookings)
    requires forall s :: s in selected ==> s in released
    ensures forall id :: id in HeldIds(selected, StopIndex(selected, now, failing), now) ==> Free(bookings, id)
  {
    var k := StopIndex(selected, now, failing);
    StopIndexMeaning(selected, now, failing);
    forall id | id in HeldIds(selected, k, now)
      ensures Free(bookings, id)
    {
      var j: nat :| j <= k && j < |selected| && selected[j].id == id && Rejection(selected[j], now).None? by {
        if id in IdsOf(selected[..k]) {
          var s :| s in selected[..k] && s.id == id;
          var j :| 0 <= j < k && selected[..k][j] == s;
          assert selected[j] == s;
        }
      }
      assert selected[j] in selected;
      OpenRowIsFree(released, bookings, selected[j]);
    }
  }

  /**
   * Approving a pending booking keeps the tables consistent: the slot's other pending
   * bookings are declined, the slot is approved and its overlaps are blocked.
   */
  lemma ApproveKeepsConsistent(slots: seq<Slot>, bookings: seq<Booking>, id: Id)
    requires UniqueSlotIds(slots) && UniqueBookingIds(bookings)
    requires Consistent(slots, bookings)
    requires forall b :: b in bookings && b.id == id ==> b.status == Pending
    ensures Consistent(ApproveEffect(slots, bookings, id).slots, ApproveEffect(slots, bookings, id).bookings)
  {
    var fb := FindBooking(bookings, id);
    if fb.Some? {
      var i :| 0 <= i < |bookings| && bookings[i] == fb.value;
      var fs := FindSlot(slots, bookings[i].slotId);
      if fs.Some? {
        var j :| 0 <= j < |slots| && slots[j] == fs.value;
        ApproveApproves(slots, bookings, id, i, j);
        ApprovedTablesConsistent(slots, bookings, ApproveEffect(slots, bookings, id).slots, ApproveEffect(slots, bookings, id).bookings, i, j);
      }
    }
  }

  /**
   * The tables `approveBooking` leaves, row by row: booking `i` approved, the other pending
   * bookings of slot `j` declined, slot `j` approved, any other slot unchanged or blocked.
   */
  ghost predicate ApprovedRows(slots: seq<Slot>, bookings: seq<Booking>, slots': seq<Slot>, bookings': seq<Booking>, i: nat, j: nat) {
    && i < |bookings| && j < |slots| && slots[j].id == bookings[i].slotId
    && |bookings'| == |bookings| && bookings'[i] == bookings[i].(status := BookingStatus.Approved)
    && (forall k :: 0 <= k < |bookings| && k != i ==>
          bookings'[k] == if bookings[k].slotId == slots[j].id && bookings[k].status == Pending then bookings[k].(status := Declined) else bookings[k])
    && |slots'| == |slots| && slots'[j].status == SlotStatus.Approved && slots'[j].id == slots[j].id
    && (forall k :: 0 <= k < |slots| && k != j ==> slots'[k] == slots[k] || slots'[k] == slots[k].(status := SlotStatus.Blocked))
  }

  /** The tables `approveBooking` leaves are consistent when the booking was pending. */
  lemma ApprovedTablesConsistent(slots: seq<Slot>, bookings: seq<Booking>, slots': seq<Slot>, bookings': seq<Booking>, i: nat, j: nat)
    requires UniqueSlotIds(slots) && Consistent(slots, bookings)
    requires ApprovedRows(slots, bookings, slots', bookings', i, j) && bookings[i].status == Pending
    ensures Consistent(slots', bookings')
  {
    ApprovedSingle(slots, bookings, slots', bookings', i, j);
    ApprovedTaken(slots, bookings, slots', bookings', i, j);
    ApprovedNoPending(slots, bookings, slots', bookings', i, j);
  }

  /** After the approval, the approved booking is the only approved one of its slot. */
  lemma ApprovedOnlyOne(slots: seq<Slot>, bookings: seq<Booking>, slots': seq<Slot>, bookings': seq<Booking>, i: nat, j: nat)
    requires Consistent(slots, bookings)
    requires ApprovedRows(slots, bookings, slots', bookings', i, j) && bookings[i].status == Pending
    ensures forall k :: 0 <= k < |bookings'| && bookings'[k].status == BookingStatus.Approved && bookings'[k].slotId == slots[j].id ==> k == i
  {
    forall k | 0 <= k < |bookings'| && bookings'[k].status == BookingStatus.Approved && bookings'[k].slotId == slots[j].id
      ensures k == i
    {
    }
  }

  lemma ApprovedSingle(slots: seq<Slot>, bookings: seq<Booking>, slots': seq<Slot>, bookings': seq<Booking>, i: nat, j: nat)
    requires Consistent(slots, bookings)
    requires ApprovedRows(slots, bookings, slots', bookings', i, j) && bookings[i].status == Pending
    ensures SingleApproval(bookings')
  {
    ApprovedOnlyOne(slots, bookings, slots', bookings', i, j);
    forall a, c | a in bookings' && c in bookings' && a.status == BookingStatus.Approved && c.status == BookingStatus.Approved && a.slotId == c.slotId
      ensures a == c
    {
      var p :| 0 <= p < |bookings'| && bookings'[p] == a;
      var q :| 0 <= q < |bookings'| && bookings'[q] == c;
      if a.slotId != slots[j].id {
        assert bookings[p] in bookings && bookings[q] in bookings;
      }
    }
  }

  lemma ApprovedTaken(slots: seq<Slot>, bookings: seq<Booking>, slots': seq<Slot>, bookings': seq<Booking>, i: nat, j: nat)
    requires UniqueSlotIds(slots) && Consistent(slots, bookings)
    requires ApprovedRows(slots, bookings, slots', bookings', i, j)
    ensures ApprovedSlotsTaken(slots', bookings')
  {
    forall a, s | a in bookings' && s in slots' && a.status == BookingStatus.Approved && s.id == a.slotId
      ensures s.status == SlotStatus.Approved || s.status == SlotStatus.Blocked
    {
      var p :| 0 <= p < |bookings'| && bookings'[p] == a;
      var q :| 0 <= q < |slots'| && slots'[q] == s;
      if q != j && s == slots[q] {
        assert slots[q].id != slots[j].id;
        assert bookings[p] in bookings && slots[q] in slots;
      }
    }
  }

  lemma ApprovedNoPending(slots: seq<Slot>, bookings: seq<Booking>, slots': seq<Slot>, bookings': seq<Booking>, i: nat, j: nat)
    requires Consistent(slots, bookings)
    requires ApprovedRows(slots, bookings, slots', bookings', i, j) && bookings[i].status == Pending
    ensures NoPendingBesideApproved(bookings')
  {
    ApprovedOnlyOne(slots, bookings, slots', bookings', i, j);
    forall a, c | a in bookings' && c in bookings' && a.status == BookingStatus.Approved && c.status == Pending
      ensures a.slotId != c.slotId
    {
      var p :| 0 <= p < |bookings'| && bookings'[p] == a;
      var q :| 0 <= q < |bookings'| && bookings'[q] == c;
      if a.slotId != slots[j].id {
        assert bookings[p] in bookings && bookings[q] in bookings;
      }
    }
  }

  /**
   * Declining a booking keeps the tables consistent: the slot is reset only when no other
   * booking of it is approved.
   */
  lemma DeclineKeepsConsistent(slots: seq<Slot>, bookings: seq<Booking>, id: Id)
    requires UniqueSlotIds(slots) && UniqueBookingIds(bookings)
    requires Consistent(slots, bookings)
    ensures Consistent(DeclineEffect(slots, bookings, id).slots, DeclineEffect(slots, bookings, id).bookings)
  {
    var fb := FindBooking(bookings, id);
    if fb.Some? {
      var i :| 0 <= i < |bookings| && bookings[i] == fb.value;
      var fs := FindSlot(slots, bookings[i].slotId);
      if fs.Some? {
        var j :| 0 <= j < |slots| && slots[j] == fs.value;
        DeclineDeclines(slots, bookings, id, i, j);
        DeclinedTablesConsistent(slots, bookings, i, j);
      }
    }
  }

  /** The tables `declineBooking` leaves, described row by row, are consistent. */
  lemma DeclinedTablesConsistent(slots: seq<Slot>, bookings: seq<Booking>, i: nat, j: nat)
    requires UniqueSlotIds(slots) && Consistent(slots, bookings)
    requires i < |bookings| && j < |slots| && slots[j].id == bookings[i].slotId
    ensures Consistent(if OtherApproved(bookings, i) then slots else slots[j := slots[j].(status := Available, holdExpiresAt := None)],
                       bookings[i := bookings[i].(status := Declined)])
  {
    var declined := bookings[i := bookings[i].(status := Declined)];
    FewerActiveKeepsConsistent(slots, bookings, declined);
    if !OtherApproved(bookings, i) {
      forall a | a in declined && a.status == BookingStatus.Approved
        ensures a.slotId != slots[j].id
      {
        var k :| 0 <= k < |declined| && declined[k] == a;
      }
      SetStatusKeepsConsistent(slots, declined, {slots[j].id}, Available, None);
      SetStatusSingle(slots, j, Available, None);
    }
  }

  /**
   * `approveBooking` does not look at the booking's status: approving any booking of a
   * slot that already carries an approved one leaves two approved bookings on it. Under
   * `Consistent` such a booking is never pending, which is why `ApproveKeepsConsistent`
   * asks for a pending one.
   */
  lemma ApproveBesideApprovedBreaksConsistency(slots: seq<Slot>, bookings: seq<Booking>, id: Id, i: nat, j: nat, k: nat)
    requires UniqueSlotIds(slots) && UniqueBookingIds(bookings)
    requires i < |bookings| && bookings[i].id == id
    requires j < |slots| && slots[j].id == bookings[i].slotId
    requires k < |bookings| && k != i && bookings[k].slotId == bookings[i].slotId && bookings[k].status == BookingStatus.Approved
    ensures ApproveEffect(slots, bookings, id).result.Ok?
    ensures !SingleApproval(ApproveEffect(slots, bookings, id).bookings)
  {
    ApproveApproves(slots, bookings, id, i, j);
    var after := ApproveEffect(slots, bookings, id).bookings;
    assert after[i] in after && after[k] in after && after[i].id != after[k].id;
  }
}
