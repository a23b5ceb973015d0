/**
 * The booking workflow (src/server/services/booking.ts): reclaiming lapsed holds,
 * requesting a set of slots with compensation on failure, approving and declining a
 * booking, and the two admin read paths.
 */
module BookingService {
  import opened Wrappers
  import opened Seqs
  import opened Time
  import opened Types
  import opened Store
  import opened SlotRepository
  import opened BookingRepository

  /** `HOLD_DURATION_HOURS`: a requested slot is held for two hours. */
  const HoldDurationMinutes := 120

  // ---------------------------------------------------------------------------
  // releaseExpiredHolds

  /** `releaseExpiredHolds()`: every `requested` slot whose hold lies before `now` becomes `available` without hold. */
  method ReleaseExpiredHolds(db: Database, now: Instant)
    requires db.Valid()
    modifies db`slots
    ensures db.Valid()
    ensures db.slots == Released(old(db.slots), now)
  {
    ReleasedExactly(db.slots, now);
    SameRowsValid(db.slots, Released(db.slots, now), db.bookings, db.rules, db.nextId);
    db.slots := Released(db.slots, now);
  }

  // ---------------------------------------------------------------------------
  // The selection of requestBookings

  /** The rows whose id is one of `ids`, in table order. */
  function Matching(slots: seq<Slot>, ids: seq<Id>): (r: seq<Slot>)
    ensures forall s :: s in r <==> s in slots && s.id in ids
  {
    if slots == [] then []
    else
      var init, last := slots[..|slots| - 1], slots[|slots| - 1];
      assert slots == init + [last];
      Matching(init, ids) + (if last.id in ids then [last] else [])
  }

  /** `.from("slots").in("id", ids).order("start_at")`: the selected rows by ascending start. */
  function Selected(slots: seq<Slot>, ids: seq<Id>): (r: seq<Slot>)
    ensures forall s :: s in r <==> s in slots && s.id in ids
    ensures SortedBy(r, StartOf)
    ensures |r| == |Matching(slots, ids)|
  {
    SortBy(Matching(slots, ids), StartOf)
  }

  /** With unique ids, the number of rows selected is the number of requested ids that exist. */
  lemma {:induction false} MatchingCount(slots: seq<Slot>, ids: seq<Id>)
    requires UniqueSlotIds(slots)
    ensures |Matching(slots, ids)| == |Elements(ids) * IdsOf(slots)|
  {
    if slots == [] {
      assert IdsOf(slots) == {};
    } else {
      var init, last := slots[..|slots| - 1], slots[|slots| - 1];
      assert slots == init + [last];
      LastIdFresh(slots);
      MatchingCount(init, ids);
      CardStep(Elements(ids), IdsOf(init), last.id);
    }
  }

  lemma CardStep(e: set<Id>, a: set<Id>, x: Id)
    requires x !in a
    ensures |e * (a + {x})| == |e * a| + (if x in e then 1 else 0)
  {
    if x in e {
      assert e * (a + {x}) == e * a + {x};
    } else {
      assert e * (a + {x}) == e * a;
    }
  }

  /** With unique ids, the last row's id is new to the rows before it. */
  lemma LastIdFresh(slots: seq<Slot>)
    requires UniqueSlotIds(slots) && slots != []
    ensures UniqueSlotIds(slots[..|slots| - 1])
    ensures IdsOf(slots) == IdsOf(slots[..|slots| - 1]) + {slots[|slots| - 1].id}
    ensures slots[|slots| - 1].id !in IdsOf(slots[..|slots| - 1])
  {
    var init, last := slots[..|slots| - 1], slots[|slots| - 1];
    assert slots == init + [last];
    forall s | s in init ensures s.id != last.id {
      var j :| 0 <= j < |init| && init[j] == s;
      assert slots[j] == s;
    }
  }

  /**
   * The length check of `requestBookings`: with unique row ids and deduplicated ids, as
   * many rows come back as ids were asked for exactly when every id names a row.
   */
  lemma SelectionComplete(slots: seq<Slot>, unique: seq<Id>)
    requires UniqueSlotIds(slots) && Distinct(unique)
    ensures |Selected(slots, unique)| == |unique| <==> forall id :: id in unique ==> id in IdsOf(slots)
  {
    MatchingCount(slots, unique);
    DistinctCard(unique);
    var e := Elements(unique);
    if forall id :: id in unique ==> id in IdsOf(slots) {
      assert e * IdsOf(slots) == e;
    } else {
      var x :| x in unique && x !in IdsOf(slots);
      IntersectionMisses(e, IdsOf(slots), x);
    }
  }

  lemma IntersectionMisses(e: set<Id>, a: set<Id>, x: Id)
    requires x in e && x !in a
    ensures |e * a| < |e|
  {
    var found, absent := e * a, e - a;
    assert x in absent;
    assert e == found + absent && found !! absent;
  }

  /** The selection keeps the ids unique. */
  lemma SelectedUniqueIds(slots: seq<Slot>, ids: seq<Id>)
    requires UniqueSlotIds(slots)
    ensures UniqueSlotIds(Selected(slots, ids))
  {
    var m := Matching(slots, ids);
    var s := Selected(slots, ids);
    assert Distinct(slots);
    MatchingDistinct(slots, ids);
    PermutationDistinct(m, s);
    forall a, b | 0 <= a < b < |s| ensures s[a].id != s[b].id {
      var ia :| 0 <= ia < |slots| && slots[ia] == s[a];
      var ib :| 0 <= ib < |slots| && slots[ib] == s[b];
    }
  }

  lemma {:induction false} MatchingDistinct(slots: seq<Slot>, ids: seq<Id>)
    requires Distinct(slots)
    ensures Distinct(Matching(slots, ids))
  {
    if slots != [] {
      var init, last := slots[..|slots| - 1], slots[|slots| - 1];
      assert slots == init + [last];
      assert Distinct(init);
      MatchingDistinct(init, ids);
      assert last !in init;
    }
  }

  // ---------------------------------------------------------------------------
  // The loop of requestBookings

  /**
   * Why the loop refuses a fetched slot, if it does: a slot passes when it is `available`,
   * or `requested` with a null hold or a hold that is not later than `now`.
   */
  function Rejection(s: Slot, now: Instant): (r: Option<Failure>)
    ensures r.None? <==>
      s.status == Available || (s.status == Requested && (s.holdExpiresAt.None? || s.holdExpiresAt.value <= now))
    ensures r.Some? ==> r.value == NotBookable || r.value == OnHold
  {
    if s.status != Available && s.status != Requested then Some(NotBookable)
    else if s.status == Requested && s.holdExpiresAt.Some? && s.holdExpiresAt.value > now then Some(OnHold)
    else None
  }

  /**
   * Where the loop stops: the first slot it refuses or whose booking insert fails (the
   * slots in `failing`), or the end of the selection.
   */
  function StopIndex(selected: seq<Slot>, now: Instant, failing: set<Id>): (k: nat)
    ensures k <= |selected|
  {
    if selected == [] then 0
    else if Rejection(selected[0], now).Some? || selected[0].id in failing then 0
    else 1 + StopIndex(selected[1..], now, failing)
  }

  /** The bookings the loop inserts for the slots it got through, numbered from `first`. */
  function NewBookings(done: seq<Slot>, visitor: Visitor, notes: Option<string>, first: nat): (r: seq<Booking>)
    ensures |r| == |done|
  {
    if done == [] then []
    else NewBookings(done[..|done| - 1], visitor, notes, first) + [NewBooking(first + |done| - 1, done[|done| - 1].id, visitor, notes)]
  }

  function BookingIds(bookings: seq<Booking>): seq<Id> {
    seq(|bookings|, j requires 0 <= j < |bookings| => bookings[j].id)
  }

  /** An entry of `processed`. */
  datatype Processed = Processed(slotId: Id, bookingId: Id)

  function ProcessedSlots(processed: seq<Processed>): set<Id> {
    set p | p in processed :: p.slotId
  }

  function ProcessedBookings(processed: seq<Processed>): seq<Id> {
    seq(|processed|, j requires 0 <= j < |processed| => processed[j].bookingId)
  }

  /** The `processed` array after the loop got through `done`. */
  function Pairs(done: seq<Slot>, first: nat): (r: seq<Processed>)
    ensures |r| == |done|
  {
    if done == [] then []
    else Pairs(done[..|done| - 1], first) + [Processed(done[|done| - 1].id, first + |done| - 1)]
  }

  // ---------------------------------------------------------------------------
  // rollbackProcessedBookings

  /**
   * `rollbackProcessedBookings(processed)`: nothing for an empty list; otherwise the
   * processed bookings are deleted (a failed delete is only logged, which `cleanupFails`
   * stands for) and every processed slot is reset to `available` without hold.
   */
  method RollbackProcessedBookings(db: Database, processed: seq<Processed>, cleanupFails: bool)
    requires db.Valid()
    modifies db`slots, db`bookings
    ensures db.Valid()
    ensures db.bookings == if processed == [] || cleanupFails then old(db.bookings)
                           else WithoutIds(old(db.bookings), ProcessedBookings(processed))
    ensures db.slots == SetStatus(old(db.slots), ProcessedSlots(processed), Available, None)
  {
    if |processed| == 0 {
      SetStatusAbsent(db.slots, {}, Available, None);
      return;
    }
    DeleteBookingsByIds(db, ProcessedBookings(processed), cleanupFails);
    ResetProcessedSlots(db, processed);
  }

  /** The `Promise.all` of `rollbackProcessedBookings`: every processed slot back to `available`. */
  method ResetProcessedSlots(db: Database, processed: seq<Processed>)
    requires db.Valid()
    modifies db`slots
    ensures db.Valid()
    ensures db.slots == SetStatus(old(db.slots), ProcessedSlots(processed), Available, None)
  {
    ghost var start := db.slots;
    SetStatusAbsent(start, {}, Available, None);
    for k := 0 to |processed|
      invariant db.Valid()
      invariant db.slots == SetStatus(start, ProcessedSlots(processed[..k]), Available, None)
    {
      var id := processed[k].slotId;
      ghost var before := db.slots;
      var reset := UpdateSlotStatus(db, id, Available, None);
      if reset.Err? {
        SetStatusAbsent(before, {id}, Available, None);
      }
      SetStatusUnion(start, ProcessedSlots(processed[..k]), {id}, Available, None);
      ProcessedSlotsSnoc(processed, k);
    }
    assert processed[..|processed|] == processed;
  }

  lemma ProcessedSlotsSnoc(processed: seq<Processed>, k: nat)
    requires k < |processed|
    ensures ProcessedSlots(processed[..k + 1]) == ProcessedSlots(processed[..k]) + {processed[k].slotId}
  {
    assert processed[..k + 1] == processed[..k] + [processed[k]];
  }

  // ---------------------------------------------------------------------------
  // requestBookings

  /** What `requestBookings` returns: the new bookings, the slots as fetched, and the hold. */
  datatype RequestOutcome = RequestOutcome(bookings: seq<Booking>, slots: seq<Slot>, holdExpiresAt: Instant)

  /** An outcome together with the tables it leaves behind. */
  datatype RequestState = RequestState(result: Result<RequestOutcome, Failure>, slots: seq<Slot>, bookings: seq<Booking>, nextId: nat)

  /**
   * The loop and its compensation, from the released table and the validated selection.
   * The loop puts each slot on hold and inserts its booking; if it stops early, the
   * processed pairs are rolled back, and a slot whose insert failed stays on hold.
   */
  function Attempt(released: seq<Slot>, bookings: seq<Booking>, nextId: nat, selected: seq<Slot>,
                   visitor: Visitor, notes: Option<string>, now: Instant, failing: set<Id>, cleanupFails: bool): RequestState
  {
    var hold := now + HoldDurationMinutes;
    var k := StopIndex(selected, now, failing);
    var done := selected[..k];
    var created := NewBookings(done, visitor, notes, nextId);
    if k == |selected| then
      RequestState(Ok(RequestOutcome(BookingsByIds(bookings + created, BookingIds(created)), selected, hold)),
                   SetStatus(released, IdsOf(selected), Requested, Some(hold)), bookings + created, nextId + k)
    else
      RequestState(Err(Rejection(selected[k], now).GetOr(BookingNotCreated)),
                   SetStatus(SetStatus(released, HeldIds(selected, k, now), Requested, Some(hold)), IdsOf(done), Available, None),
                   if k == 0 || cleanupFails then bookings + created else WithoutIds(bookings + created, BookingIds(created)),
                   nextId + k)
  }

  /**
   * `requestBookings`: holds are released first; an empty selection and a selection with
   * a missing slot are refused before anything else changes; otherwise the attempt runs
   * over the selected slots in ascending start order.
   */
  function RequestEffect(slots: seq<Slot>, bookings: seq<Booking>, nextId: nat, slotIds: seq<Id>,
                         visitor: Visitor, notes: Option<string>, now: Instant, failing: set<Id>, cleanupFails: bool): RequestState
  {
    var released := Released(slots, now);
    var unique := Dedupe(slotIds);
    if unique == [] then RequestState(Err(NoSlotSelected), released, bookings, nextId)
    else
      var selected := Selected(released, unique);
      if |selected| != |unique| then RequestState(Err(SlotsMissing), released, bookings, nextId)
      else Attempt(released, bookings, nextId, selected, visitor, notes, now, failing, cleanupFails)
  }

  /**
   * `requestBookings({slotIds, visitor…, notes})` at the instant `now`; the booking insert
   * fails for the slots in `failing`, and the rollback's delete fails when `cleanupFails`.
   */
  method RequestBookings(db: Database, slotIds: seq<Id>, visitor: Visitor, notes: Option<string>,
                         now: Instant, failing: set<Id>, cleanupFails: bool)
    returns (r: Result<RequestOutcome, Failure>)
    requires db.Valid()
    modifies db`slots, db`bookings, db`nextId
    ensures db.Valid()
    ensures RequestEffect(old(db.slots), old(db.bookings), old(db.nextId), slotIds, visitor, notes, now, failing, cleanupFails)
         == RequestState(r, db.slots, db.bookings, db.nextId)
  {
    ReleaseExpiredHolds(db, now);
    var unique := Dedupe(slotIds);
    if |unique| == 0 {
      return Err(NoSlotSelected);
    }
    var selected := Selected(db.slots, unique);
    if |selected| != |unique| {
      return Err(SlotsMissing);
    }
    r := AttemptRequests(db, selected, visitor, notes, now, failing, cleanupFails);
  }

  /**
   * The ids left on hold when the loop stops at `k`: the slots got through, and the slot
   * whose booking insert failed, which was updated before the insert.
   */
  function HeldIds(selected: seq<Slot>, k: nat, now: Instant): set<Id>
    requires k <= |selected|
  {
    if k < |selected| && Rejection(selected[k], now).None? then IdsOf(selected[..k]) + {selected[k].id}
    else IdsOf(selected[..k])
  }

  /** The `try` block of `requestBookings` and its `catch`. */
  method AttemptRequests(db: Database, selected: seq<Slot>, visitor: Visitor, notes: Option<string>,
                         now: Instant, failing: set<Id>, cleanupFails: bool)
    returns (r: Result<RequestOutcome, Failure>)
    requires db.Valid()
    requires forall s :: s in selected ==> s in db.slots
    modifies db`slots, db`bookings, db`nextId
    ensures db.Valid()
    ensures Attempt(old(db.slots), old(db.bookings), old(db.nextId), selected, visitor, notes, now, failing, cleanupFails)
         == RequestState(r, db.slots, db.bookings, db.nextId)
  {
    ghost var released, b0, n0 := db.slots, db.bookings, db.nextId;
    var processed, failure := HoldSelected(db, selected, visitor, notes, now, failing);
    assert Stopped(db.slots, db.bookings, db.nextId, processed, failure, released, b0, n0, selected, visitor, notes, now, failing);
    if failure.Some? {
      AttemptFails(released, b0, n0, selected, visitor, notes, now, failing, cleanupFails);
      RollbackProcessedBookings(db, processed, cleanupFails);
      return Err(failure.value);
    }
    AttemptSucceeds(released, b0, n0, selected, visitor, notes, now, failing, cleanupFails);
    r := Ok(RequestOutcome(BookingsByIds(db.bookings, ProcessedBookings(processed)), selected, now + HoldDurationMinutes));
  }

  /**
   * The state after the loop got through the first `i` selected slots: those are on hold,
   * each has its booking, numbered from `n0`, and its pair in `processed`.
   */
  ghost predicate Progress(slots: seq<Slot>, bookings: seq<Booking>, nextId: nat, processed: seq<Processed>,
                           released: seq<Slot>, b0: seq<Booking>, n0: nat, selected: seq<Slot>, i: nat,
                           visitor: Visitor, notes: Option<string>, now: Instant, failing: set<Id>)
  {
    && i <= StopIndex(selected, now, failing)
    && processed == Pairs(selected[..i], n0)
    && slots == SetStatus(released, IdsOf(selected[..i]), Requested, Some(now + HoldDurationMinutes))
    && bookings == b0 + NewBookings(selected[..i], visitor, notes, n0)
    && nextId == n0 + i
  }

  /**
   * The state when the loop stops at `StopIndex`: the slots got through (and a slot whose
   * insert failed) on hold, their bookings and pairs, and the failure that stopped it.
   */
  ghost predicate Stopped(slots: seq<Slot>, bookings: seq<Booking>, nextId: nat, processed: seq<Processed>, failure: Option<Failure>,
                          released: seq<Slot>, b0: seq<Booking>, n0: nat, selected: seq<Slot>,
                          visitor: Visitor, notes: Option<string>, now: Instant, failing: set<Id>)
  {
    var k := StopIndex(selected, now, failing);
    && processed == Pairs(selected[..k], n0)
    && failure == (if k == |selected| then None else Some(Rejection(selected[k], now).GetOr(BookingNotCreated)))
    && slots == SetStatus(released, HeldIds(selected, k, now), Requested, Some(now + HoldDurationMinutes))
    && bookings == b0 + NewBookings(selected[..k], visitor, notes, n0)
    && nextId == n0 + k
  }

  /**
   * The loop of `requestBookings` up to the first slot it refuses or whose booking insert
   * fails: the pairs processed, and the failure that stopped it, if any.
   */
  method HoldSelected(db: Database, selected: seq<Slot>, visitor: Visitor, notes: Option<string>,
                      now: Instant, failing: set<Id>)
    returns (processed: seq<Processed>, failure: Option<Failure>)
    requires db.Valid()
    requires forall s :: s in selected ==> s in db.slots
    modifies db`slots, db`bookings, db`nextId
    ensures db.Valid()
    ensures Stopped(db.slots, db.bookings, db.nextId, processed, failure,
                    old(db.slots), old(db.bookings), old(db.nextId), selected, visitor, notes, now, failing)
  {
    ghost var released, b0, n0 := db.slots, db.bookings, db.nextId;
    SetStatusAbsent(released, {}, Requested, Some(now + HoldDurationMinutes));
    processed := [];
    assert selected[..0] == [];
    var i := 0;
    while i < |selected|
      invariant db.Valid()
      invariant Progress(db.slots, db.bookings, db.nextId, processed, released, b0, n0, selected, i, visitor, notes, now, failing)
    {
      var booking := RequestSlot(db, selected, i, visitor, notes, now, failing, processed, released, b0, n0);
      if booking.Err? {
        return processed, Some(booking.error);
      }
      processed := processed + [Processed(selected[i].id, booking.value.id)];
      i := i + 1;
    }
    assert selected[..i] == selected;
    return processed, None;
  }

  /**
   * One turn of the loop, for the slot at `i`: the status and hold checks, the hold, and
   * the booking insert. An error names the check that refused the slot or the failed insert.
   */
  method RequestSlot(db: Database, selected: seq<Slot>, i: nat, visitor: Visitor, notes: Option<string>,
                     now: Instant, failing: set<Id>, ghost processed: seq<Processed>,
                     ghost released: seq<Slot>, ghost b0: seq<Booking>, ghost n0: nat)
    returns (booking: Result<Booking, Failure>)
    requires db.Valid()
    requires forall s :: s in selected ==> s in released
    requires i < |selected|
    requires Progress(db.slots, db.bookings, db.nextId, processed, released, b0, n0, selected, i, visitor, notes, now, failing)
    modifies db`slots, db`bookings, db`nextId
    ensures db.Valid()
    ensures booking.Err? ==>
      Stopped(db.slots, db.bookings, db.nextId, processed, Some(booking.error), released, b0, n0, selected, visitor, notes, now, failing)
    ensures booking.Ok? ==>
      Progress(db.slots, db.bookings, db.nextId, processed + [Processed(selected[i].id, booking.value.id)],
               released, b0, n0, selected, i + 1, visitor, notes, now, failing)
  {
    var reason := Rejection(selected[i], now);
    if reason.Some? {
      StopsAt(selected, now, failing, i);
      return Err(reason.value);
    }
    var hold := now + HoldDurationMinutes;
    HoldStep(released, selected, i, hold);
    SetStatusUnion(released, IdsOf(selected[..i]), {selected[i].id}, Requested, Some(hold));
    booking := HoldAndBook(db, selected[i].id, hold, visitor, notes, selected[i].id in failing);
    if booking.Err? {
      StopsAt(selected, now, failing, i);
      return;
    }
    assert selected[i].id !in failing;
    assert old(db.nextId) == n0 + i;
    assert booking.value == NewBooking(n0 + i, selected[i].id, visitor, notes);
    assert db.bookings == old(db.bookings) + [booking.value];
    PassesAt(selected, now, failing, i);
    BookingsStep(selected, i, visitor, notes, n0);
    PairsStep(selected, i, n0);
    AppendAssoc(b0, NewBookings(selected[..i], visitor, notes, n0), [booking.value]);
    assert processed == Pairs(selected[..i], n0);
    assert Processed(selected[i].id, booking.value.id) == Processed(selected[i].id, n0 + i);
    assert processed + [Processed(selected[i].id, booking.value.id)] == Pairs(selected[..i + 1], n0);
    assert db.slots == SetStatus(released, IdsOf(selected[..i + 1]), Requested, Some(hold));
    assert db.bookings == b0 + NewBookings(selected[..i + 1], visitor, notes, n0);
  }

  lemma AppendAssoc<T>(a: seq<T>, b: seq<T>, c: seq<T>)
    ensures a + b + c == a + (b + c)
  {
  }

  /** The loop stops at the first slot it refuses or fails to book. */
  lemma StopsAt(selected: seq<Slot>, now: Instant, failing: set<Id>, i: nat)
    requires i < |selected| && i <= StopIndex(selected, now, failing)
    requires Rejection(selected[i], now).Some? || selected[i].id in failing
    ensures StopIndex(selected, now, failing) == i
  {
    StopIndexMeaning(selected, now, failing);
  }

  /** A slot that passes and books moves the stop further. */
  lemma PassesAt(selected: seq<Slot>, now: Instant, failing: set<Id>, i: nat)
    requires i < |selected| && i <= StopIndex(selected, now, failing)
    requires Rejection(selected[i], now).None? && selected[i].id !in failing
    ensures i < StopIndex(selected, now, failing)
  {
    StopIndexMeaning(selected, now, failing);
  }

  /**
   * The loop gets through exactly the slots before `StopIndex`, and stops at a slot it
   * refuses or fails to book.
   */
  lemma {:induction false} StopIndexMeaning(selected: seq<Slot>, now: Instant, failing: set<Id>)
    ensures forall j :: 0 <= j < StopIndex(selected, now, failing) ==>
      Rejection(selected[j], now).None? && selected[j].id !in failing
    ensures StopIndex(selected, now, failing) < |selected| ==>
      Rejection(selected[StopIndex(selected, now, failing)], now).Some? || selected[StopIndex(selected, now, failing)].id in failing
  {
    if selected != [] {
      StopIndexMeaning(selected[1..], now, failing);
    }
  }

  /**
   * The body of the loop for a slot that passed the checks: `updateSlotStatus(requested,
   * hold)`, then `createBooking`, which fails when `fails`.
   */
  method HoldAndBook(db: Database, slotId: Id, hold: Instant, visitor: Visitor, notes: Option<string>, fails: bool)
    returns (r: Result<Booking, Failure>)
    requires db.Valid() && slotId in IdsOf(db.slots)
    modifies db`slots, db`bookings, db`nextId
    ensures db.Valid()
    ensures db.slots == SetStatus(old(db.slots), {slotId}, Requested, Some(hold))
    ensures fails ==> r == Err(BookingNotCreated) && db.bookings == old(db.bookings) && db.nextId == old(db.nextId)
    ensures !fails ==>
      && r == Ok(NewBooking(old(db.nextId), slotId, visitor, notes))
      && db.bookings == old(db.bookings) + [r.value]
      && db.nextId == old(db.nextId) + 1
  {
    FindSlotPresent(db.slots, slotId);
    ghost var before := db.slots;
    var held := UpdateSlotStatus(db, slotId, Requested, Some(hold));
    SetStatusIds(before, {slotId}, Requested, Some(hold));
    FindSlotPresent(db.slots, slotId);
    r := CreateBooking(db, slotId, visitor, notes, fails);
  }

  /** One turn of the loop: the slot at `i` joins the held ids and is still in the table. */
  lemma HoldStep(released: seq<Slot>, selected: seq<Slot>, i: nat, hold: Instant)
    requires i < |selected| && forall s :: s in selected ==> s in released
    ensures IdsOf(selected[..i + 1]) == IdsOf(selected[..i]) + {selected[i].id}
    ensures selected[i].id in IdsOf(SetStatus(released, IdsOf(selected[..i]), Requested, Some(hold)))
  {
    assert selected[..i + 1] == selected[..i] + [selected[i]];
    assert selected[i] in selected;
    assert selected[i].id in IdsOf(released);
    SetStatusIds(released, IdsOf(selected[..i]), Requested, Some(hold));
  }

  /** One turn of the loop: the slot's booking joins the created ones. */
  lemma BookingsStep(selected: seq<Slot>, i: nat, visitor: Visitor, notes: Option<string>, n0: nat)
    requires i < |selected|
    ensures NewBookings(selected[..i + 1], visitor, notes, n0)
         == NewBookings(selected[..i], visitor, notes, n0) + [NewBooking(n0 + i, selected[i].id, visitor, notes)]
  {
    assert selected[..i + 1] == selected[..i] + [selected[i]];
    NewBookingsSnoc(selected[..i], selected[i], visitor, notes, n0);
  }

  /** One turn of the loop: the pair joins the processed list. */
  lemma PairsStep(selected: seq<Slot>, i: nat, n0: nat)
    requires i < |selected|
    ensures Pairs(selected[..i + 1], n0) == Pairs(selected[..i], n0) + [Processed(selected[i].id, n0 + i)]
  {
    assert selected[..i + 1] == selected[..i] + [selected[i]];
    PairsSnoc(selected[..i], selected[i], n0);
  }

  /** A loop that got through every selected slot: the success branch of the attempt. */
  lemma AttemptSucceeds(released: seq<Slot>, b0: seq<Booking>, n0: nat, selected: seq<Slot>, visitor: Visitor,
                        notes: Option<string>, now: Instant, failing: set<Id>, cleanupFails: bool)
    requires StopIndex(selected, now, failing) == |selected|
    ensures Attempt(released, b0, n0, selected, visitor, notes, now, failing, cleanupFails)
         == RequestState(Ok(RequestOutcome(BookingsByIds(b0 + NewBookings(selected[..|selected|], visitor, notes, n0),
                                                         ProcessedBookings(Pairs(selected[..|selected|], n0))),
                                           selected, now + HoldDurationMinutes)),
                         SetStatus(released, HeldIds(selected, |selected|, now), Requested, Some(now + HoldDurationMinutes)),
                         b0 + NewBookings(selected[..|selected|], visitor, notes, n0), n0 + |selected|)
  {
    assert selected[..|selected|] == selected;
    ProcessedOf(selected, visitor, notes, n0);
  }

  /** A loop that stopped early: the failure branch of the attempt, in the terms of the rollback. */
  lemma AttemptFails(released: seq<Slot>, b0: seq<Booking>, n0: nat, selected: seq<Slot>, visitor: Visitor,
                     notes: Option<string>, now: Instant, failing: set<Id>, cleanupFails: bool)
    requires StopIndex(selected, now, failing) < |selected|
    ensures Attempt(released, b0, n0, selected, visitor, notes, now, failing, cleanupFails)
         == RequestState(Err(Rejection(selected[StopIndex(selected, now, failing)], now).GetOr(BookingNotCreated)),
                         SetStatus(SetStatus(released, HeldIds(selected, StopIndex(selected, now, failing), now), Requested, Some(now + HoldDurationMinutes)),
                                   ProcessedSlots(Pairs(selected[..StopIndex(selected, now, failing)], n0)), Available, None),
                         if Pairs(selected[..StopIndex(selected, now, failing)], n0) == [] || cleanupFails
                         then b0 + NewBookings(selected[..StopIndex(selected, now, failing)], visitor, notes, n0)
                         else WithoutIds(b0 + NewBookings(selected[..StopIndex(selected, now, failing)], visitor, notes, n0),
                                         ProcessedBookings(Pairs(selected[..StopIndex(selected, now, failing)], n0))),
                         n0 + StopIndex(selected, now, failing))
  {
    ProcessedOf(selected[..StopIndex(selected, now, failing)], visitor, notes, n0);
  }

  lemma NewBookingsSnoc(done: seq<Slot>, s: Slot, visitor: Visitor, notes: Option<string>, first: nat)
    ensures NewBookings(done + [s], visitor, notes, first)
         == NewBookings(done, visitor, notes, first) + [NewBooking(first + |done|, s.id, visitor, notes)]
  {
    assert (done + [s])[..|done|] == done;
  }

  lemma PairsSnoc(done: seq<Slot>, s: Slot, first: nat)
    ensures Pairs(done + [s], first) == Pairs(done, first) + [Processed(s.id, first + |done|)]
  {
    assert (done + [s])[..|done|] == done;
  }

  lemma {:induction false} PairsAt(done: seq<Slot>, first: nat)
    ensures forall j :: 0 <= j < |done| ==> Pairs(done, first)[j] == Processed(done[j].id, first + j)
  {
    if done != [] {
      PairsAt(done[..|done| - 1], first);
    }
  }

  lemma {:induction false} NewBookingsAt(done: seq<Slot>, visitor: Visitor, notes: Option<string>, first: nat)
    ensures forall j :: 0 <= j < |done| ==>
      NewBookings(done, visitor, notes, first)[j] == NewBooking(first + j, done[j].id, visitor, notes)
  {
    if done != [] {
      NewBookingsAt(done[..|done| - 1], visitor, notes, first);
    }
  }

  /** The processed pairs name the slots got through and the bookings created for them. */
  lemma ProcessedOf(done: seq<Slot>, visitor: Visitor, notes: Option<string>, first: nat)
    ensures ProcessedSlots(Pairs(done, first)) == IdsOf(done)
    ensures ProcessedBookings(Pairs(done, first)) == BookingIds(NewBookings(done, visitor, notes, first))
    ensures Pairs(done, first) == [] <==> done == []
  {
    var p := Pairs(done, first);
    PairsAt(done, first);
    NewBookingsAt(done, visitor, notes, first);
    forall id | id in IdsOf(done) ensures id in ProcessedSlots(p) {
      var s :| s in done && s.id == id;
      var j :| 0 <= j < |done| && done[j] == s;
      assert p[j].slotId == id;
    }
  }

  // ---------------------------------------------------------------------------
  // approveBooking and declineBooking

  /** What a decision returns: the booking as updated and the slot as the caller sees it. */
  datatype Decision = Decision(booking: Booking, slot: Slot)

  /** A decision's outcome together with the tables it leaves behind. */
  datatype DecisionState = DecisionState(result: Result<Decision, Failure>, slots: seq<Slot>, bookings: seq<Booking>)

  /**
   * `approveBooking(id)`: the booking and its slot must exist. The slot becomes `approved`
   * without hold, the slot's other pending bookings are declined, every other slot of the
   * studio overlapping it is blocked, and the booking becomes `approved`. The slot returned
   * is the one loaded with the booking, with the new status.
   */
  function ApproveEffect(slots: seq<Slot>, bookings: seq<Booking>, id: Id): DecisionState {
    match FindBooking(bookings, id)
    case None => DecisionState(Err(BookingNotFound), slots, bookings)
    case Some(b) =>
      match FindSlot(slots, b.slotId)
      case None => DecisionState(Err(SlotDataMissing), slots, bookings)
      case Some(s) =>
        DecisionState(Ok(Decision(b.(status := BookingStatus.Approved), s.(status := SlotStatus.Approved))),
                      SlotRepository.Blocked(SetStatus(slots, {s.id}, SlotStatus.Approved, None), s.startAt, s.endAt, s.studioId, Some(s.id)),
                      SetBookingStatus(DeclinedForSlot(bookings, s.id, Some(b.id)), b.id, BookingStatus.Approved))
  }

  method ApproveBooking(db: Database, id: Id) returns (r: Result<Decision, Failure>)
    requires db.Valid()
    modifies db`slots, db`bookings
    ensures db.Valid()
    ensures ApproveEffect(old(db.slots), old(db.bookings), id) == DecisionState(r, db.slots, db.bookings)
  {
    var booking := FindBooking(db.bookings, id);
    if booking.None? {
      return Err(BookingNotFound);
    }
    var b := booking.value;
    var slot := FindSlot(db.slots, b.slotId);
    if slot.None? {
      return Err(SlotDataMissing);
    }
    var s := slot.value;
    var held := UpdateSlotStatus(db, s.id, SlotStatus.Approved, None);
    DeclineBookingsForSlot(db, s.id, Some(b.id));
    MarkOverlappingSlotsAsBlocked(db, s.startAt, s.endAt, s.studioId, Some(s.id));
    FindBookingAfterDecline(old(db.bookings), b, s.id);
    var updated := UpdateBookingStatus(db, b.id, BookingStatus.Approved);
    r := Ok(Decision(updated.value, s.(status := SlotStatus.Approved)));
  }

  /** Declining the other bookings of a slot leaves the excluded booking where it was. */
  lemma FindBookingAfterDecline(bookings: seq<Booking>, b: Booking, slotId: Id)
    requires b in bookings
    requires FindBooking(bookings, b.id) == Some(b)
    ensures FindBooking(DeclinedForSlot(bookings, slotId, Some(b.id)), b.id) == Some(b)
  {
    var d := DeclinedForSlot(bookings, slotId, Some(b.id));
    FindBookingSame(bookings, d, b.id);
  }

  lemma {:induction false} FindBookingSame(a: seq<Booking>, c: seq<Booking>, id: Id)
    requires |a| == |c|
    requires forall i :: 0 <= i < |a| ==> (a[i].id == id <==> c[i].id == id)
    requires forall i :: 0 <= i < |a| && a[i].id == id ==> c[i] == a[i]
    ensures FindBooking(c, id) == FindBooking(a, id)
  {
    if a != [] {
      FindBookingSame(a[1..], c[1..], id);
    }
  }

  /** `competingBookings.some(b => b.id !== booking.id && b.status === "approved")`. */
  function HasOtherApproved(bookings: seq<Booking>, id: Id): (r: bool)
    ensures r <==> exists c :: c in bookings && c.id != id && c.status == BookingStatus.Approved
  {
    if bookings == [] then false
    else (bookings[0].id != id && bookings[0].status == BookingStatus.Approved) || HasOtherApproved(bookings[1..], id)
  }

  /**
   * `declineBooking(id)`: the booking and its slot must exist. The booking becomes
   * `declined`; unless another booking of the slot is approved, the slot becomes
   * `available` without hold. The slot returned is the one loaded with the booking, with
   * the status the slot now has.
   */
  function DeclineEffect(slots: seq<Slot>, bookings: seq<Booking>, id: Id): DecisionState {
    match FindBooking(bookings, id)
    case None => DecisionState(Err(BookingNotFound), slots, bookings)
    case Some(b) =>
      match FindSlot(slots, b.slotId)
      case None => DecisionState(Err(SlotDataMissing), slots, bookings)
      case Some(s) =>
        var declined := SetBookingStatus(bookings, b.id, Declined);
        var hasApproved := HasOtherApproved(BookingsBySlot(declined, s.id), b.id);
        DecisionState(Ok(Decision(b.(status := Declined), s.(status := if hasApproved then s.status else Available))),
                      if hasApproved then slots else SetStatus(slots, {s.id}, Available, None),
                      declined)
  }

  method DeclineBooking(db: Database, id: Id) returns (r: Result<Decision, Failure>)
    requires db.Valid()
    modifies db`slots, db`bookings
    ensures db.Valid()
    ensures DeclineEffect(old(db.slots), old(db.bookings), id) == DecisionState(r, db.slots, db.bookings)
  {
    var booking := FindBooking(db.bookings, id);
    if booking.None? {
      return Err(BookingNotFound);
    }
    var b := booking.value;
    var slot := FindSlot(db.slots, b.slotId);
    if slot.None? {
      return Err(SlotDataMissing);
    }
    var s := slot.value;
    var updated := UpdateBookingStatus(db, b.id, Declined);
    var competing := BookingsBySlot(db.bookings, s.id);
    var hasApproved := HasOtherApproved(competing, b.id);
    if !hasApproved {
      var reset := UpdateSlotStatus(db, s.id, Available, None);
    }
    r := Ok(Decision(updated.value, s.(status := if hasApproved then s.status else Available)));
  }

  // ---------------------------------------------------------------------------
  // listPendingBookings

  /** `listPendingBookings(studioId?)`: lapsed holds are released, then the pending bookings are listed. */
  method ListPendingBookings(db: Database, studioId: Option<Id>, now: Instant) returns (r: seq<Booking>)
    requires db.Valid()
    modifies db`slots
    ensures db.Valid()
    ensures db.slots == Released(old(db.slots), now)
    ensures r == PendingBookings(db.bookings, db.slots, studioId)
  {
    ReleaseExpiredHolds(db, now);
    r := PendingBookings(db.bookings, db.slots, studioId);
  }

  // ---------------------------------------------------------------------------
  // What the decisions establish

  /**
   * With its slot present, approving a booking answers with the approved booking and the
   * slot marked approved; the booking's row becomes `approved`, the slot's other pending
   * bookings `declined`, the slot `approved` without hold, and every other slot of the
   * studio that overlaps it `blocked`. No other row changes.
   */
  lemma ApproveApproves(slots: seq<Slot>, bookings: seq<Booking>, id: Id, i: nat, j: nat)
    requires UniqueSlotIds(slots) && UniqueBookingIds(bookings)
    requires i < |bookings| && bookings[i].id == id
    requires j < |slots| && slots[j].id == bookings[i].slotId
    ensures ApproveEffect(slots, bookings, id).result
         == Ok(Decision(bookings[i].(status := BookingStatus.Approved), slots[j].(status := SlotStatus.Approved)))
    ensures |ApproveEffect(slots, bookings, id).bookings| == |bookings|
    ensures ApproveEffect(slots, bookings, id).bookings[i] == bookings[i].(status := BookingStatus.Approved)
    ensures forall k :: 0 <= k < |bookings| && k != i ==>
      ApproveEffect(slots, bookings, id).bookings[k]
      == if bookings[k].slotId == slots[j].id && bookings[k].status == Pending then bookings[k].(status := Declined) else bookings[k]
    ensures |ApproveEffect(slots, bookings, id).slots| == |slots|
    ensures ApproveEffect(slots, bookings, id).slots[j] == slots[j].(status := SlotStatus.Approved, holdExpiresAt := None)
    ensures forall k :: 0 <= k < |slots| && k != j ==>
      ApproveEffect(slots, bookings, id).slots[k]
      == if slots[k].studioId == slots[j].studioId && Overlaps(slots[k], slots[j].startAt, slots[j].endAt)
         then slots[k].(status := SlotStatus.Blocked) else slots[k]
  {
    FindBookingUnique(bookings, i);
    FindSlotUnique(slots, j);
  }

  /** Approving an unknown booking, or one whose slot is gone, is refused and changes nothing. */
  lemma ApproveRefuses(slots: seq<Slot>, bookings: seq<Booking>, id: Id)
    requires UniqueBookingIds(bookings)
    ensures (forall i :: 0 <= i < |bookings| ==> bookings[i].id != id) ==>
      ApproveEffect(slots, bookings, id) == DecisionState(Err(BookingNotFound), slots, bookings)
    ensures forall i :: 0 <= i < |bookings| && bookings[i].id == id && (forall j :: 0 <= j < |slots| ==> slots[j].id != bookings[i].slotId) ==>
      ApproveEffect(slots, bookings, id) == DecisionState(Err(SlotDataMissing), slots, bookings)
  {
    forall i | 0 <= i < |bookings| && bookings[i].id == id
      ensures FindBooking(bookings, id) == Some(bookings[i])
    {
      FindBookingUnique(bookings, i);
    }
  }

  /** Declining an unknown booking, or one whose slot is gone, is refused and changes nothing. */
  lemma DeclineRefuses(slots: seq<Slot>, bookings: seq<Booking>, id: Id)
    requires UniqueBookingIds(bookings)
    ensures (forall i :: 0 <= i < |bookings| ==> bookings[i].id != id) ==>
      DeclineEffect(slots, bookings, id) == DecisionState(Err(BookingNotFound), slots, bookings)
    ensures forall i :: 0 <= i < |bookings| && bookings[i].id == id && (forall j :: 0 <= j < |slots| ==> slots[j].id != bookings[i].slotId) ==>
      DeclineEffect(slots, bookings, id) == DecisionState(Err(SlotDataMissing), slots, bookings)
  {
    forall i | 0 <= i < |bookings| && bookings[i].id == id
      ensures FindBooking(bookings, id) == Some(bookings[i])
    {
      FindBookingUnique(bookings, i);
    }
  }

  /** With unique ids, the booking found is the one row carrying that id. */
  lemma FindBookingUnique(bookings: seq<Booking>, i: nat)
    requires UniqueBookingIds(bookings) && i < |bookings|
    ensures FindBooking(bookings, bookings[i].id) == Some(bookings[i])
  {
    var r := FindBooking(bookings, bookings[i].id);
    var k :| 0 <= k < |bookings| && bookings[k] == r.value;
  }

  /** Some booking of the slot of `bookings[i]`, other than that one, is approved. */
  ghost predicate OtherApproved(bookings: seq<Booking>, i: nat)
    requires i < |bookings|
  {
    exists k :: 0 <= k < |bookings| && k != i && bookings[k].slotId == bookings[i].slotId && bookings[k].status == BookingStatus.Approved
  }

  /**
   * With its slot present, declining a booking makes its row `declined`; the slot becomes
   * `available` without hold exactly when no other booking of the slot is approved, and is
   * left as it was otherwise. No other row changes.
   */
  lemma DeclineDeclines(slots: seq<Slot>, bookings: seq<Booking>, id: Id, i: nat, j: nat)
    requires UniqueSlotIds(slots) && UniqueBookingIds(bookings)
    requires i < |bookings| && bookings[i].id == id
    requires j < |slots| && slots[j].id == bookings[i].slotId
    ensures DeclineEffect(slots, bookings, id).result
         == Ok(Decision(bookings[i].(status := Declined),
                        if OtherApproved(bookings, i) then slots[j] else slots[j].(status := Available)))
    ensures DeclineEffect(slots, bookings, id).bookings == bookings[i := bookings[i].(status := Declined)]
    ensures DeclineEffect(slots, bookings, id).slots
         == if OtherApproved(bookings, i) then slots else slots[j := slots[j].(status := Available, holdExpiresAt := None)]
  {
    FindBookingUnique(bookings, i);
    FindSlotUnique(slots, j);
    var declined := SetBookingStatus(bookings, id, Declined);
    assert declined == bookings[i := bookings[i].(status := Declined)];
    DeclineSeesOther(bookings, i);
    SetStatusSingle(slots, j, Available, None);
  }

  /** The check `declineBooking` makes after the update finds exactly the other approved bookings. */
  lemma DeclineSeesOther(bookings: seq<Booking>, i: nat)
    requires UniqueBookingIds(bookings) && i < |bookings|
    ensures HasOtherApproved(BookingsBySlot(bookings[i := bookings[i].(status := Declined)], bookings[i].slotId), bookings[i].id)
        <==> OtherApproved(bookings, i)
  {
    var declined := bookings[i := bookings[i].(status := Declined)];
    var mine := BookingsBySlot(declined, bookings[i].slotId);
    if OtherApproved(bookings, i) {
      var k :| 0 <= k < |bookings| && k != i && bookings[k].slotId == bookings[i].slotId && bookings[k].status == BookingStatus.Approved;
      assert declined[k] in mine;
    } else {
      forall c | c in mine && c.id != bookings[i].id
        ensures c.status != BookingStatus.Approved
      {
        var k :| 0 <= k < |declined| && declined[k] == c;
      }
    }
  }
}
