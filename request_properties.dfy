/**
 * What `requestBookings` promises, stated over `RequestEffect`: when it refuses a request
 * outright, when it succeeds, what a success leaves in the tables and answers, and what a
 * failure half-way through rolls back.
 */
module RequestProperties {
  import opened Wrappers
  import opened Seqs
  import opened Time
  import opened Types
  import opened Store
  import opened SlotRepository
  import opened BookingRepository
  import opened BookingService

  /** Releasing holds keeps the ids of the table and their uniqueness. */
  lemma ReleasedKeepsIds(slots: seq<Slot>, now: Instant)
    ensures IdsOf(Released(slots, now)) == IdsOf(slots)
    ensures UniqueSlotIds(slots) ==> UniqueSlotIds(Released(slots, now))
  {
    var r := Released(slots, now);
    ReleasedExactly(slots, now);
    forall id | id in IdsOf(slots) ensures id in IdsOf(r) {
      var j :| 0 <= j < |slots| && slots[j].id == id;
      assert r[j] in r;
    }
    forall id | id in IdsOf(r) ensures id in IdsOf(slots) {
      var j :| 0 <= j < |r| && r[j].id == id;
      assert slots[j] in slots;
    }
  }

  /** The attempt fails only with a bookability failure or a failed insert. */
  lemma AttemptErrors(released: seq<Slot>, bookings: seq<Booking>, nextId: nat, selected: seq<Slot>,
                      visitor: Visitor, notes: Option<string>, now: Instant, failing: set<Id>, cleanupFails: bool)
    ensures Attempt(released, bookings, nextId, selected, visitor, notes, now, failing, cleanupFails).result.Err? ==>
      Attempt(released, bookings, nextId, selected, visitor, notes, now, failing, cleanupFails).result.error in {NotBookable, OnHold, BookingNotCreated}
  {
  }

  /**
   * A request is refused before anything but the release of expired holds happens exactly
   * when it names no slot, or names a slot the table does not carry.
   */
  lemma RequestRefused(slots: seq<Slot>, bookings: seq<Booking>, nextId: nat, slotIds: seq<Id>,
                       visitor: Visitor, notes: Option<string>, now: Instant, failing: set<Id>, cleanupFails: bool)
    requires UniqueSlotIds(slots)
    ensures var st := RequestEffect(slots, bookings, nextId, slotIds, visitor, notes, now, failing, cleanupFails);
      && (st.result == Err(NoSlotSelected) <==> slotIds == [])
      && (st.result == Err(SlotsMissing) <==> slotIds != [] && exists id :: id in slotIds && id !in IdsOf(slots))
      && (st.result == Err(NoSlotSelected) || st.result == Err(SlotsMissing) ==>
            st.slots == Released(slots, now) && st.bookings == bookings && st.nextId == nextId)
  {
    var released := Released(slots, now);
    ReleasedKeepsIds(slots, now);
    var unique := Dedupe(slotIds);
    if unique != [] {
      SelectionComplete(released, unique);
      AttemptErrors(released, bookings, nextId, Selected(released, unique), visitor, notes, now, failing, cleanupFails);
    }
  }

  /**
   * A request succeeds exactly when it names at least one slot, every slot it names
   * exists, and every one of them is bookable once expired holds are released and gets
   * its booking inserted.
   */
  lemma RequestSucceedsExactly(slots: seq<Slot>, bookings: seq<Booking>, nextId: nat, slotIds: seq<Id>,
                               visitor: Visitor, notes: Option<string>, now: Instant, failing: set<Id>, cleanupFails: bool)
    requires UniqueSlotIds(slots)
    ensures RequestEffect(slots, bookings, nextId, slotIds, visitor, notes, now, failing, cleanupFails).result.Ok? <==>
      && slotIds != []
      && (forall id :: id in slotIds ==> id in IdsOf(slots))
      && (forall s :: s in Released(slots, now) && s.id in slotIds ==> Rejection(s, now).None? && s.id !in failing)
  {
    var released := Released(slots, now);
    ReleasedKeepsIds(slots, now);
    var unique := Dedupe(slotIds);
    if unique != [] {
      SelectionComplete(released, unique);
      var selected := Selected(released, unique);
      if |selected| == |unique| {
        StopIndexMeaning(selected, now, failing);
        var k := StopIndex(selected, now, failing);
        if k < |selected| {
          assert selected[k] in selected;
        } else {
          forall s | s in released && s.id in slotIds
            ensures Rejection(s, now).None? && s.id !in failing
          {
            assert s in selected;
            var j :| 0 <= j < |selected| && selected[j] == s;
          }
        }
      }
    }
  }

  /** The bookings the attempt creates carry fresh ids, from `nextId` on. */
  lemma CreatedFresh(done: seq<Slot>, visitor: Visitor, notes: Option<string>, nextId: nat)
    ensures forall b :: b in NewBookings(done, visitor, notes, nextId) ==>
      b.status == Pending && nextId <= b.id < nextId + |done| && b.visitor == visitor && b.notes == notes &&
      b.slotId in IdsOf(done)
    ensures forall id :: id in BookingIds(NewBookings(done, visitor, notes, nextId)) ==> nextId <= id
    ensures forall id :: id in IdsOf(done) ==> exists b :: b in NewBookings(done, visitor, notes, nextId) && b.slotId == id
  {
    var created := NewBookings(done, visitor, notes, nextId);
    NewBookingsAt(done, visitor, notes, nextId);
    forall b | b in created
      ensures b.slotId in IdsOf(done)
    {
      var j :| 0 <= j < |created| && created[j] == b;
      assert done[j] in done;
    }
    forall id | id in IdsOf(done)
      ensures exists b :: b in created && b.slotId == id
    {
      var j :| 0 <= j < |done| && done[j].id == id;
      assert created[j] in created;
    }
  }

  /** The slots a request that names existing slots goes on to attempt. */
  lemma Selection(slots: seq<Slot>, slotIds: seq<Id>, now: Instant)
    requires UniqueSlotIds(slots)
    requires slotIds != [] && forall id :: id in slotIds ==> id in IdsOf(slots)
    ensures |Selected(Released(slots, now), Dedupe(slotIds))| == |Dedupe(slotIds)| == |Elements(slotIds)|
    ensures IdsOf(Selected(Released(slots, now), Dedupe(slotIds))) == Elements(slotIds)
    ensures forall s :: s in Selected(Released(slots, now), Dedupe(slotIds)) ==> s in Released(slots, now)
  {
    var released := Released(slots, now);
    ReleasedKeepsIds(slots, now);
    var unique := Dedupe(slotIds);
    SelectionComplete(released, unique);
    DistinctCard(unique);
    assert Elements(unique) == Elements(slotIds);
    var selected := Selected(released, unique);
    forall id | id in slotIds ensures id in IdsOf(selected) {
      var s :| s in released && s.id == id;
    }
  }

  /** A request that names existing slots is the attempt over them. */
  lemma RequestIsAttempt(slots: seq<Slot>, bookings: seq<Booking>, nextId: nat, slotIds: seq<Id>,
                         visitor: Visitor, notes: Option<string>, now: Instant, failing: set<Id>, cleanupFails: bool)
    requires UniqueSlotIds(slots)
    requires slotIds != [] && forall id :: id in slotIds ==> id in IdsOf(slots)
    ensures RequestEffect(slots, bookings, nextId, slotIds, visitor, notes, now, failing, cleanupFails)
         == Attempt(Released(slots, now), bookings, nextId, Selected(Released(slots, now), Dedupe(slotIds)),
                    visitor, notes, now, failing, cleanupFails)
  {
    Selection(slots, slotIds, now);
  }

  /** A request that succeeds named existing slots. */
  lemma SucceededNamesExisting(slots: seq<Slot>, bookings: seq<Booking>, nextId: nat, slotIds: seq<Id>,
                               visitor: Visitor, notes: Option<string>, now: Instant, failing: set<Id>, cleanupFails: bool)
    requires UniqueSlotIds(slots)
    requires RequestEffect(slots, bookings, nextId, slotIds, visitor, notes, now, failing, cleanupFails).result.Ok?
    ensures slotIds != [] && forall id :: id in slotIds ==> id in IdsOf(slots)
  {
    RequestSucceedsExactly(slots, bookings, nextId, slotIds, visitor, notes, now, failing, cleanupFails);
  }

  /** The success branch of the attempt, with the slots it got through written out. */
  lemma AttemptSuccess(released: seq<Slot>, bookings: seq<Booking>, nextId: nat, selected: seq<Slot>,
                       visitor: Visitor, notes: Option<string>, now: Instant, failing: set<Id>, cleanupFails: bool)
    requires Attempt(released, bookings, nextId, selected, visitor, notes, now, failing, cleanupFails).result.Ok?
    ensures StopIndex(selected, now, failing) == |selected|
    ensures Attempt(released, bookings, nextId, selected, visitor, notes, now, failing, cleanupFails)
         == RequestState(Ok(RequestOutcome(BookingsByIds(bookings + NewBookings(selected, visitor, notes, nextId),
                                                         BookingIds(NewBookings(selected, visitor, notes, nextId))),
                                           selected, now + HoldDurationMinutes)),
                         SetStatus(released, IdsOf(selected), Requested, Some(now + HoldDurationMinutes)),
                         bookings + NewBookings(selected, visitor, notes, nextId), nextId + |selected|)
  {
    assert selected[..|selected|] == selected;
  }

  /**
   * A successful request holds every slot it names for two hours from `now` and leaves the
   * other rows as the release left them; it answers with those slots in start order and
   * the hold's expiry.
   */
  lemma RequestSuccessSlots(slots: seq<Slot>, bookings: seq<Booking>, nextId: nat, slotIds: seq<Id>,
                            visitor: Visitor, notes: Option<string>, now: Instant, failing: set<Id>, cleanupFails: bool)
    requires UniqueSlotIds(slots)
    requires RequestEffect(slots, bookings, nextId, slotIds, visitor, notes, now, failing, cleanupFails).result.Ok?
    ensures var st := RequestEffect(slots, bookings, nextId, slotIds, visitor, notes, now, failing, cleanupFails);
      && |st.slots| == |slots|
      && (forall j :: 0 <= j < |slots| ==>
            st.slots[j] == if slots[j].id in slotIds then slots[j].(status := Requested, holdExpiresAt := Some(now + HoldDurationMinutes))
                           else Released(slots, now)[j])
      && st.result.value.holdExpiresAt == now + HoldDurationMinutes
      && (forall s :: s in st.result.value.slots <==> s in Released(slots, now) && s.id in slotIds)
      && SortedBy(st.result.value.slots, StartOf)
  {
    SucceededNamesExisting(slots, bookings, nextId, slotIds, visitor, notes, now, failing, cleanupFails);
    var released := Released(slots, now);
    var selected := Selected(released, Dedupe(slotIds));
    Selection(slots, slotIds, now);
    RequestIsAttempt(slots, bookings, nextId, slotIds, visitor, notes, now, failing, cleanupFails);
    AttemptSuccess(released, bookings, nextId, selected, visitor, notes, now, failing, cleanupFails);
    ReleasedExactly(slots, now);
  }

  /**
   * A successful request keeps every booking there was and appends one pending booking of
   * the visitor for each distinct slot it names, with fresh ids; it answers with exactly
   * the appended bookings.
   */
  lemma RequestSuccessBookings(slots: seq<Slot>, bookings: seq<Booking>, nextId: nat, slotIds: seq<Id>,
                               visitor: Visitor, notes: Option<string>, now: Instant, failing: set<Id>, cleanupFails: bool)
    requires UniqueSlotIds(slots)
    requires forall b :: b in bookings ==> b.id < nextId
    requires RequestEffect(slots, bookings, nextId, slotIds, visitor, notes, now, failing, cleanupFails).result.Ok?
    ensures var st := RequestEffect(slots, bookings, nextId, slotIds, visitor, notes, now, failing, cleanupFails);
      && |bookings| <= |st.bookings| && st.bookings[..|bookings|] == bookings
      && |st.bookings| - |bookings| == |Elements(slotIds)| && st.nextId == nextId + |Elements(slotIds)|
      && (forall b :: b in st.bookings[|bookings|..] ==>
            b.status == Pending && b.slotId in slotIds && nextId <= b.id < st.nextId && b.visitor == visitor && b.notes == notes)
      && (forall id :: id in slotIds ==> exists b :: b in st.bookings[|bookings|..] && b.slotId == id)
      && (forall b :: b in st.result.value.bookings <==> b in st.bookings[|bookings|..])
  {
    SucceededNamesExisting(slots, bookings, nextId, slotIds, visitor, notes, now, failing, cleanupFails);
    var released := Released(slots, now);
    var selected := Selected(released, Dedupe(slotIds));
    Selection(slots, slotIds, now);
    RequestIsAttempt(slots, bookings, nextId, slotIds, visitor, notes, now, failing, cleanupFails);
    AttemptSuccess(released, bookings, nextId, selected, visitor, notes, now, failing, cleanupFails);
    var created := NewBookings(selected, visitor, notes, nextId);
    var st := RequestEffect(slots, bookings, nextId, slotIds, visitor, notes, now, failing, cleanupFails);
    assert st.bookings == bookings + created && st.nextId == nextId + |selected|;
    assert st.result.value.bookings == BookingsByIds(bookings + created, BookingIds(created));
    CreatedFresh(selected, visitor, notes, nextId);
    FetchedAreCreated(bookings, created, nextId);
    assert st.bookings[..|bookings|] == bookings;
    assert st.bookings[|bookings|..] == created;
  }

  /** Fetching the created ids back from the table finds exactly the created bookings. */
  lemma FetchedAreCreated(bookings: seq<Booking>, created: seq<Booking>, nextId: nat)
    requires forall b :: b in bookings ==> b.id < nextId
    requires forall id :: id in BookingIds(created) ==> nextId <= id
    ensures forall b :: b in BookingsByIds(bookings + created, BookingIds(created)) <==> b in created
  {
    forall b | b in created ensures b.id in BookingIds(created) {
      var j :| 0 <= j < |created| && created[j] == b;
      assert BookingIds(created)[j] == b.id;
    }
  }

  /**
   * An attempt that stops at the `k`-th selected slot re-marks only selected rows: the
   * rows of the slots it got through become available without hold; the slot it stopped
   * at stays requested under the new hold when the checks passed it and its booking insert
   * failed (it was updated before the insert); every other row is as released.
   */
  lemma AttemptFailureSlots(released: seq<Slot>, bookings: seq<Booking>, nextId: nat, selected: seq<Slot>,
                            visitor: Visitor, notes: Option<string>, now: Instant, failing: set<Id>, cleanupFails: bool)
    requires forall s :: s in selected ==> s in released
    requires StopIndex(selected, now, failing) < |selected|
    ensures var st := Attempt(released, bookings, nextId, selected, visitor, notes, now, failing, cleanupFails);
      var k := StopIndex(selected, now, failing);
      var done := IdsOf(selected[..k]);
      var stopped := selected[k];
      var insertFailed := st.result == Err(BookingNotCreated);
      && |st.slots| == |released|
      && (insertFailed <==> Rejection(stopped, now).None?)
      && (insertFailed ==> stopped.id in failing && exists j :: 0 <= j < |released| && released[j].id == stopped.id)
      && (forall j :: 0 <= j < |released| && released[j].id in done ==>
            st.slots[j] == released[j].(status := Available, holdExpiresAt := None))
      && (forall j :: 0 <= j < |released| && released[j].id !in done && released[j].id == stopped.id && insertFailed ==>
            st.slots[j] == released[j].(status := Requested, holdExpiresAt := Some(now + HoldDurationMinutes)))
      && (forall j :: 0 <= j < |released| && released[j].id !in done && (released[j].id != stopped.id || !insertFailed) ==>
            st.slots[j] == released[j])
  {
    var k := StopIndex(selected, now, failing);
    StopIndexMeaning(selected, now, failing);
    var hold := now + HoldDurationMinutes;
    var done := IdsOf(selected[..k]);
    var heldIds := HeldIds(selected, k, now);
    assert forall id :: id in heldIds <==> id in done || (id == selected[k].id && Rejection(selected[k], now).None?);
    StoppedAttempt(released, bookings, nextId, selected, visitor, notes, now, failing, cleanupFails);
    assert selected[k] in selected;
    if Rejection(selected[k], now).None? {
      var j :| 0 <= j < |released| && released[j] == selected[k];
    }
    forall j | 0 <= j < |released|
      ensures var r := SetStatus(SetStatus(released, heldIds, Requested, Some(hold)), done, Available, None)[j];
        r == if released[j].id in done then released[j].(status := Available, holdExpiresAt := None)
             else if released[j].id in heldIds then released[j].(status := Requested, holdExpiresAt := Some(hold))
             else released[j]
    {
      RemarkedRow(released, heldIds, done, hold, j);
    }
  }

  /** What an attempt that stops early answers, and the table it leaves, from its definition. */
  lemma StoppedAttempt(released: seq<Slot>, bookings: seq<Booking>, nextId: nat, selected: seq<Slot>,
                       visitor: Visitor, notes: Option<string>, now: Instant, failing: set<Id>, cleanupFails: bool)
    requires StopIndex(selected, now, failing) < |selected|
    ensures var st := Attempt(released, bookings, nextId, selected, visitor, notes, now, failing, cleanupFails);
      var k := StopIndex(selected, now, failing);
      && (st.result == Err(BookingNotCreated) <==> Rejection(selected[k], now).None?)
      && st.slots == SetStatus(SetStatus(released, HeldIds(selected, k, now), Requested, Some(now + HoldDurationMinutes)),
                               IdsOf(selected[..k]), Available, None)
  {
  }

  /** A row re-marked as held and then as reset: reset wins, then held, else unchanged. */
  lemma RemarkedRow(released: seq<Slot>, heldIds: set<Id>, done: set<Id>, hold: Instant, j: nat)
    requires j < |released|
    ensures |SetStatus(SetStatus(released, heldIds, Requested, Some(hold)), done, Available, None)| == |released|
    ensures SetStatus(SetStatus(released, heldIds, Requested, Some(hold)), done, Available, None)[j]
         == if released[j].id in done then released[j].(status := Available, holdExpiresAt := None)
            else if released[j].id in heldIds then released[j].(status := Requested, holdExpiresAt := Some(hold))
            else released[j]
  {
  }

  /**
   * An attempt that stops early keeps every booking there was; unless the delete of the
   * rollback fails, it removes every booking it created.
   */
  lemma AttemptFailureBookings(released: seq<Slot>, bookings: seq<Booking>, nextId: nat, selected: seq<Slot>,
                               visitor: Visitor, notes: Option<string>, now: Instant, failing: set<Id>, cleanupFails: bool)
    requires forall b :: b in bookings ==> b.id < nextId
    requires StopIndex(selected, now, failing) < |selected|
    ensures var st := Attempt(released, bookings, nextId, selected, visitor, notes, now, failing, cleanupFails);
      && |bookings| <= |st.bookings| && st.bookings[..|bookings|] == bookings
      && (!cleanupFails ==> st.bookings == bookings)
  {
    var k := StopIndex(selected, now, failing);
    var created := NewBookings(selected[..k], visitor, notes, nextId);
    CreatedFresh(selected[..k], visitor, notes, nextId);
    assert (bookings + created)[..|bookings|] == bookings;
    if k == 0 {
      assert created == [];
      assert bookings + created == bookings;
    } else if !cleanupFails {
      var ids := BookingIds(created);
      forall i | 0 <= i < |bookings| ensures bookings[i].id !in ids {
        assert bookings[i] in bookings;
      }
      forall i | 0 <= i < |created| ensures created[i].id in ids {
        assert ids[i] == created[i].id;
      }
      WithoutIdsRestores(bookings, created, ids);
    }
  }

  /** A request that names existing slots and fails is an attempt that stopped early. */
  lemma FailedAttempt(slots: seq<Slot>, bookings: seq<Booking>, nextId: nat, slotIds: seq<Id>,
                      visitor: Visitor, notes: Option<string>, now: Instant, failing: set<Id>, cleanupFails: bool)
    requires UniqueSlotIds(slots)
    requires slotIds != [] && forall id :: id in slotIds ==> id in IdsOf(slots)
    requires RequestEffect(slots, bookings, nextId, slotIds, visitor, notes, now, failing, cleanupFails).result.Err?
    ensures StopIndex(Selected(Released(slots, now), Dedupe(slotIds)), now, failing) < |Selected(Released(slots, now), Dedupe(slotIds))|
    ensures RequestEffect(slots, bookings, nextId, slotIds, visitor, notes, now, failing, cleanupFails)
         == Attempt(Released(slots, now), bookings, nextId, Selected(Released(slots, now), Dedupe(slotIds)),
                    visitor, notes, now, failing, cleanupFails)
  {
    RequestIsAttempt(slots, bookings, nextId, slotIds, visitor, notes, now, failing, cleanupFails);
  }

  /**
   * A request that names existing slots but fails does so with a bookability failure or a
   * failed insert; it keeps every booking there was and, unless the rollback's delete
   * fails, leaves none of those it created.
   */
  lemma RequestFailureBookings(slots: seq<Slot>, bookings: seq<Booking>, nextId: nat, slotIds: seq<Id>,
                               visitor: Visitor, notes: Option<string>, now: Instant, failing: set<Id>, cleanupFails: bool)
    requires UniqueSlotIds(slots)
    requires forall b :: b in bookings ==> b.id < nextId
    requires slotIds != [] && forall id :: id in slotIds ==> id in IdsOf(slots)
    requires RequestEffect(slots, bookings, nextId, slotIds, visitor, notes, now, failing, cleanupFails).result.Err?
    ensures var st := RequestEffect(slots, bookings, nextId, slotIds, visitor, notes, now, failing, cleanupFails);
      && st.result.error in {NotBookable, OnHold, BookingNotCreated}
      && |bookings| <= |st.bookings| && st.bookings[..|bookings|] == bookings
      && (!cleanupFails ==> st.bookings == bookings)
  {
    var released := Released(slots, now);
    var selected := Selected(released, Dedupe(slotIds));
    FailedAttempt(slots, bookings, nextId, slotIds, visitor, notes, now, failing, cleanupFails);
    AttemptErrors(released, bookings, nextId, selected, visitor, notes, now, failing, cleanupFails);
    AttemptFailureBookings(released, bookings, nextId, selected, visitor, notes, now, failing, cleanupFails);
  }

  /**
   * A request that names existing slots but fails stops at one of them: the named rows it
   * got through before that slot are available without hold; the slot it stopped at is
   * requested under the new hold when the checks passed it and its booking insert failed;
   * every other row is as the release left it.
   */
  lemma RequestFailureSlots(slots: seq<Slot>, bookings: seq<Booking>, nextId: nat, slotIds: seq<Id>,
                            visitor: Visitor, notes: Option<string>, now: Instant, failing: set<Id>, cleanupFails: bool)
    requires UniqueSlotIds(slots)
    requires slotIds != [] && forall id :: id in slotIds ==> id in IdsOf(slots)
    requires RequestEffect(slots, bookings, nextId, slotIds, visitor, notes, now, failing, cleanupFails).result.Err?
    ensures var st := RequestEffect(slots, bookings, nextId, slotIds, visitor, notes, now, failing, cleanupFails);
      var selected := Selected(Released(slots, now), Dedupe(slotIds));
      var k := StopIndex(selected, now, failing);
      k < |selected| &&
      var done := IdsOf(selected[..k]);
      var stopped := selected[k];
      var insertFailed := st.result == Err(BookingNotCreated);
      && |st.slots| == |slots|
      && (forall id :: id in done ==> id in slotIds) && stopped.id in slotIds && stopped.id !in done
      && (insertFailed <==> Rejection(stopped, now).None?)
      && (insertFailed ==> stopped.id in failing)
      && (forall j :: 0 <= j < |slots| && slots[j].id in done ==>
            st.slots[j] == slots[j].(status := Available, holdExpiresAt := None))
      && (forall j :: 0 <= j < |slots| && slots[j].id == stopped.id && insertFailed ==>
            st.slots[j] == slots[j].(status := Requested, holdExpiresAt := Some(now + HoldDurationMinutes)))
      && (forall j :: 0 <= j < |slots| && slots[j].id !in done && (slots[j].id != stopped.id || !insertFailed) ==>
            st.slots[j] == Released(slots, now)[j])
  {
    var released := Released(slots, now);
    var selected := Selected(released, Dedupe(slotIds));
    var hold := now + HoldDurationMinutes;
    FailedAttempt(slots, bookings, nextId, slotIds, visitor, notes, now, failing, cleanupFails);
    Selection(slots, slotIds, now);
    var k := StopIndex(selected, now, failing);
    StoppedNotDone(slots, slotIds, now, k);
    AttemptFailureSlots(released, bookings, nextId, selected, visitor, notes, now, failing, cleanupFails);
    var st := Attempt(released, bookings, nextId, selected, visitor, notes, now, failing, cleanupFails);
    forall j | 0 <= j < |slots|
      ensures released[j].id == slots[j].id
      ensures released[j].(status := Available, holdExpiresAt := None) == slots[j].(status := Available, holdExpiresAt := None)
      ensures released[j].(status := Requested, holdExpiresAt := Some(hold)) == slots[j].(status := Requested, holdExpiresAt := Some(hold))
    {
      ReleasedRow(slots, now, hold, j);
    }
  }

  /**
   * The selection of a request names distinct slots among those requested, so the slot it
   * stopped at is not one it got through.
   */
  lemma StoppedNotDone(slots: seq<Slot>, slotIds: seq<Id>, now: Instant, k: nat)
    requires UniqueSlotIds(slots)
    requires slotIds != [] && forall id :: id in slotIds ==> id in IdsOf(slots)
    requires k < |Selected(Released(slots, now), Dedupe(slotIds))|
    ensures var selected := Selected(Released(slots, now), Dedupe(slotIds));
      && (forall id :: id in IdsOf(selected[..k]) ==> id in slotIds)
      && selected[k].id in slotIds && selected[k].id !in IdsOf(selected[..k])
  {
    var released := Released(slots, now);
    var selected := Selected(released, Dedupe(slotIds));
    Selection(slots, slotIds, now);
    ReleasedKeepsIds(slots, now);
    SelectedUniqueIds(released, Dedupe(slotIds));
    assert selected[k] in selected;
    UniqueBeforeStop(selected, k);
    forall id | id in IdsOf(selected[..k]) ensures id in slotIds {
      var s :| s in selected[..k] && s.id == id;
      assert s in selected;
    }
  }

  /** In a selection with unique ids, no slot before position `k` shares the `k`-th slot's id. */
  lemma UniqueBeforeStop(selected: seq<Slot>, k: nat)
    requires UniqueSlotIds(selected) && k < |selected|
    ensures selected[k].id !in IdsOf(selected[..k])
  {
    forall s | s in selected[..k] ensures s.id != selected[k].id {
      var i :| 0 <= i < k && selected[..k][i] == s;
    }
  }

  /** Released rows keep their ids, and re-marking one overwrites whatever the release did. */
  lemma ReleasedRow(slots: seq<Slot>, now: Instant, hold: Instant, j: nat)
    requires j < |slots|
    ensures |Released(slots, now)| == |slots|
    ensures Released(slots, now)[j].id == slots[j].id
    ensures Released(slots, now)[j].(status := Available, holdExpiresAt := None) == slots[j].(status := Available, holdExpiresAt := None)
    ensures Released(slots, now)[j].(status := Requested, holdExpiresAt := Some(hold)) == slots[j].(status := Requested, holdExpiresAt := Some(hold))
  {
  }
}
