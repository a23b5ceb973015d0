/**
 * The slots table and its operations (src/server/repositories/slots.ts): cutting a
 * range into fixed-length windows, status updates, blocking overlapping slots, bulk
 * insertion that ignores key conflicts, and the range queries.
 */
module SlotRepository {
  import opened Wrappers
  import opened Seqs
  import opened Time
  import opened Types
  import opened Store

  // ---------------------------------------------------------------------------
  // buildSlotWindows

  /**
   * The windows `buildSlotWindows(start, end, increment)` returns: consecutive windows
   * of `increment` minutes from `start`, stopping before the first one that would end
   * after `end`. A negative increment gives none.
   */
  function SlotWindows(start: Instant, end: Instant, increment: int): seq<SlotWindow>
    decreases end - start
  {
    if start < end && 0 < increment && start + increment <= end then
      [SlotWindow(start, start + increment)] + SlotWindows(start + increment, end, increment)
    else []
  }

  /**
   * Every window lasts `increment` minutes and lies inside `[start, end]`; the first one
   * starts at `start` and each one ends where the next begins.
   */
  lemma {:induction false} SlotWindowsShape(start: Instant, end: Instant, increment: int)
    ensures var w := SlotWindows(start, end, increment);
      && (forall i :: 0 <= i < |w| ==>
            SlotDurationMinutes(w[i]) == increment && start <= w[i].start && w[i].end <= end)
      && (|w| > 0 ==> w[0].start == start)
      && (forall i :: 0 <= i < |w| - 1 ==> w[i].end == w[i + 1].start)
    decreases end - start
  {
    var w := SlotWindows(start, end, increment);
    if w != [] {
      SlotWindowsShape(start + increment, end, increment);
      var rest := SlotWindows(start + increment, end, increment);
      assert w == [SlotWindow(start, start + increment)] + rest;
      assert forall i :: 1 <= i < |w| ==> w[i] == rest[i - 1];
    }
  }

  /** The loop of `buildSlotWindows`. A zero increment would never leave the loop. */
  method BuildSlotWindows(start: Instant, end: Instant, increment: int) returns (windows: seq<SlotWindow>)
    requires increment != 0
    ensures windows == SlotWindows(start, end, increment)
  {
    windows := [];
    var cursor := start;
    while cursor < end
      invariant windows + SlotWindows(cursor, end, increment) == SlotWindows(start, end, increment)
      decreases end - cursor
    {
      var next := cursor + increment;
      if next < cursor || next > end {
        break;
      }
      ghost var rest := SlotWindows(next, end, increment);
      assert SlotWindows(cursor, end, increment) == [SlotWindow(cursor, next)] + rest;
      assert windows + ([SlotWindow(cursor, next)] + rest) == (windows + [SlotWindow(cursor, next)]) + rest;
      windows := windows + [SlotWindow(cursor, next)];
      cursor := next;
    }
  }

  lemma MulAtLeast(a: int, d: int)
    requires a >= 1 && d > 0
    ensures a * d >= d
  {
    assert a * d == (a - 1) * d + d;
  }

  /** Euclidean division has one quotient for each remainder in `[0, d)`. */
  lemma DivUnique(x: int, d: int, q: int, r: int)
    requires 0 < d && 0 <= r < d && x == q * d + r
    ensures x / d == q
  {
    var q0, r0 := x / d, x % d;
    assert x == q0 * d + r0;
    assert (q - q0) * d == r0 - r;
    if q > q0 {
      MulAtLeast(q - q0, d);
    } else if q < q0 {
      MulAtLeast(q0 - q, d);
    }
  }

  /**
   * The number of windows: none when the range is empty or the increment is not positive,
   * otherwise `floor((end - start) / increment)`, a trailing partial window being dropped.
   */
  lemma {:induction false} SlotWindowsCount(start: Instant, end: Instant, increment: int)
    ensures increment <= 0 || start >= end ==> |SlotWindows(start, end, increment)| == 0
    ensures increment > 0 && start < end ==> |SlotWindows(start, end, increment)| == (end - start) / increment
    decreases end - start
  {
    if increment > 0 && start < end {
      if start + increment <= end {
        SlotWindowsCount(start + increment, end, increment);
        var n := |SlotWindows(start + increment, end, increment)|;
        if start + increment < end {
          var x := end - start - increment;
          DivUnique(end - start, increment, x / increment + 1, x % increment);
        } else {
          DivUnique(end - start, increment, 1, 0);
        }
      } else {
        DivUnique(end - start, increment, 0, end - start);
      }
    }
  }

  // ---------------------------------------------------------------------------
  // Row lookups and row-preserving updates

  function FindSlot(slots: seq<Slot>, id: Id): (r: Option<Slot>)
    ensures r.Some? ==> r.value in slots && r.value.id == id
    ensures r.None? ==> forall i :: 0 <= i < |slots| ==> slots[i].id != id
  {
    if slots == [] then None
    else if slots[0].id == id then Some(slots[0])
    else FindSlot(slots[1..], id)
  }

  /** With unique ids, the slot found is the one row carrying that id. */
  lemma FindSlotUnique(slots: seq<Slot>, i: nat)
    requires UniqueSlotIds(slots) && i < |slots|
    ensures FindSlot(slots, slots[i].id) == Some(slots[i])
  {
    var r := FindSlot(slots, slots[i].id);
    var j :| 0 <= j < |slots| && slots[j] == r.value;
  }

  function IdsOf(slots: seq<Slot>): set<Id> {
    set s | s in slots :: s.id
  }

  /** A lookup of an id the table carries finds a row. */
  lemma FindSlotPresent(slots: seq<Slot>, id: Id)
    requires id in IdsOf(slots)
    ensures FindSlot(slots, id).Some?
  {
    var s :| s in slots && s.id == id;
    var j :| 0 <= j < |slots| && slots[j] == s;
  }

  predicate HasKey(slots: seq<Slot>, k: SlotKey) {
    exists i :: 0 <= i < |slots| && KeyOf(slots[i]) == k
  }

  /** Two versions of the table with the same rows, up to status and hold. */
  ghost predicate SameRows(a: seq<Slot>, b: seq<Slot>) {
    |a| == |b| &&
    forall i :: 0 <= i < |a| ==> a[i].id == b[i].id && KeyOf(a[i]) == KeyOf(b[i]) && a[i].createdVia == b[i].createdVia
  }

  /** Changing statuses and holds keeps the store's guarantees. */
  lemma SameRowsValid(a: seq<Slot>, b: seq<Slot>, bookings: seq<Booking>, rules: seq<AvailabilityRule>, nextId: nat)
    requires TablesValid(a, bookings, rules, nextId) && SameRows(a, b)
    ensures TablesValid(b, bookings, rules, nextId)
  {
    assert forall i, j :: 0 <= i < j < |b| ==> b[i].id == a[i].id && b[j].id == a[j].id;
    assert forall i, j :: 0 <= i < j < |b| ==> KeyOf(b[i]) == KeyOf(a[i]) && KeyOf(b[j]) == KeyOf(a[j]);
  }

  /**
   * `updateSlotStatus` applied to every id in `ids`: those rows get the new status and
   * hold, every other row is unchanged.
   */
  function SetStatus(slots: seq<Slot>, ids: set<Id>, status: SlotStatus, hold: Option<Instant>): (r: seq<Slot>)
    ensures |r| == |slots|
    ensures forall i :: 0 <= i < |r| ==>
      r[i] == if slots[i].id in ids then slots[i].(status := status, holdExpiresAt := hold) else slots[i]
  {
    if slots == [] then []
    else
      var head := if slots[0].id in ids then slots[0].(status := status, holdExpiresAt := hold) else slots[0];
      [head] + SetStatus(slots[1..], ids, status, hold)
  }

  lemma SetStatusSameRows(slots: seq<Slot>, ids: set<Id>, status: SlotStatus, hold: Option<Instant>)
    ensures SameRows(slots, SetStatus(slots, ids, status, hold))
  {
  }

  /** With unique ids, updating one row's id updates that row alone. */
  lemma SetStatusSingle(slots: seq<Slot>, j: nat, status: SlotStatus, hold: Option<Instant>)
    requires UniqueSlotIds(slots) && j < |slots|
    ensures SetStatus(slots, {slots[j].id}, status, hold) == slots[j := slots[j].(status := status, holdExpiresAt := hold)]
  {
  }

  /** Updating ids that no row carries changes nothing. */
  lemma SetStatusAbsent(slots: seq<Slot>, ids: set<Id>, status: SlotStatus, hold: Option<Instant>)
    requires forall i :: 0 <= i < |slots| ==> slots[i].id !in ids
    ensures SetStatus(slots, ids, status, hold) == slots
  {
    var r := SetStatus(slots, ids, status, hold);
    assert forall i :: 0 <= i < |r| ==> r[i] == slots[i];
  }

  /** Status updates keep the set of ids in the table. */
  lemma SetStatusIds(slots: seq<Slot>, ids: set<Id>, status: SlotStatus, hold: Option<Instant>)
    ensures IdsOf(SetStatus(slots, ids, status, hold)) == IdsOf(slots)
  {
    var r := SetStatus(slots, ids, status, hold);
    forall id | id in IdsOf(slots) ensures id in IdsOf(r) {
      var j :| 0 <= j < |slots| && slots[j].id == id;
      assert r[j].id == id;
    }
    forall id | id in IdsOf(r) ensures id in IdsOf(slots) {
      var j :| 0 <= j < |r| && r[j].id == id;
      assert slots[j].id == id;
    }
  }

  /** Updating more rows to the same status and hold, one after the other, is one update of all of them. */
  lemma SetStatusUnion(slots: seq<Slot>, a: set<Id>, b: set<Id>, status: SlotStatus, hold: Option<Instant>)
    ensures SetStatus(SetStatus(slots, a, status, hold), b, status, hold) == SetStatus(slots, a + b, status, hold)
  {
    var m := SetStatus(slots, a, status, hold);
    var l := SetStatus(m, b, status, hold);
    var r := SetStatus(slots, a + b, status, hold);
    forall i | 0 <= i < |r|
      ensures l[i] == r[i]
    {
      assert m[i].id == slots[i].id;
    }
  }

  /** A later update of a superset of rows overrides an earlier one entirely. */
  lemma SetStatusOverride(slots: seq<Slot>, a: set<Id>, b: set<Id>, s1: SlotStatus, h1: Option<Instant>, s2: SlotStatus, h2: Option<Instant>)
    requires a <= b
    ensures SetStatus(SetStatus(slots, a, s1, h1), b, s2, h2) == SetStatus(slots, b, s2, h2)
  {
    var m := SetStatus(slots, a, s1, h1);
    var l := SetStatus(m, b, s2, h2);
    var r := SetStatus(slots, b, s2, h2);
    forall i | 0 <= i < |r|
      ensures l[i] == r[i]
    {
      assert m[i].id == slots[i].id;
    }
  }

  // ---------------------------------------------------------------------------
  // updateSlotStatus

  /**
   * `updateSlotStatus(slotId, status, holdExpiresAt)`: the named slot gets the status and
   * the hold (null when none is given); a missing row is an error and changes nothing.
   */
  method UpdateSlotStatus(db: Database, id: Id, status: SlotStatus, hold: Option<Instant>) returns (r: Result<Slot, Failure>)
    requires db.Valid()
    modifies db`slots
    ensures db.Valid()
    ensures match FindSlot(old(db.slots), id)
      case None => r == Err(SlotNotFound) && db.slots == old(db.slots)
      case Some(s) =>
        r == Ok(s.(status := status, holdExpiresAt := hold)) && db.slots == SetStatus(old(db.slots), {id}, status, hold)
  {
    var found := FindSlot(db.slots, id);
    if found.None? {
      return Err(SlotNotFound);
    }
    SetStatusSameRows(db.slots, {id}, status, hold);
    SameRowsValid(db.slots, SetStatus(db.slots, {id}, status, hold), db.bookings, db.rules, db.nextId);
    db.slots := SetStatus(db.slots, {id}, status, hold);
    r := Ok(found.value.(status := status, holdExpiresAt := hold));
  }

  // ---------------------------------------------------------------------------
  // markOverlappingSlotsAsBlocked

  /** The half-open intervals `[s.startAt, s.endAt)` and `[start, end)` intersect. */
  predicate Overlaps(s: Slot, start: Instant, end: Instant) {
    s.startAt < end && s.endAt > start
  }

  predicate ShouldBlock(s: Slot, start: Instant, end: Instant, studioId: Id, exclude: Option<Id>) {
    s.studioId == studioId && Overlaps(s, start, end) && (exclude.None? || s.id != exclude.value)
  }

  /** The table after `markOverlappingSlotsAsBlocked`. */
  function Blocked(slots: seq<Slot>, start: Instant, end: Instant, studioId: Id, exclude: Option<Id>): (r: seq<Slot>)
    ensures |r| == |slots|
    ensures forall i :: 0 <= i < |r| ==>
      r[i] == if ShouldBlock(slots[i], start, end, studioId, exclude) then slots[i].(status := SlotStatus.Blocked) else slots[i]
  {
    if slots == [] then []
    else
      var head := if ShouldBlock(slots[0], start, end, studioId, exclude) then slots[0].(status := SlotStatus.Blocked) else slots[0];
      [head] + Blocked(slots[1..], start, end, studioId, exclude)
  }

  /**
   * Blocking sets `blocked` on exactly the same-studio, overlapping, non-excluded slots;
   * holds, other studios and everything else are untouched.
   */
  lemma BlockedExactly(slots: seq<Slot>, start: Instant, end: Instant, studioId: Id, exclude: Option<Id>)
    ensures var r := Blocked(slots, start, end, studioId, exclude);
      && SameRows(slots, r)
      && (forall i :: 0 <= i < |r| ==> r[i].holdExpiresAt == slots[i].holdExpiresAt)
      && (forall i :: 0 <= i < |r| ==> (r[i].status != slots[i].status ==> r[i].status == SlotStatus.Blocked))
      && (forall i :: 0 <= i < |r| ==> (r[i].status == SlotStatus.Blocked <==>
            slots[i].status == SlotStatus.Blocked || ShouldBlock(slots[i], start, end, studioId, exclude)))
      && (forall i :: 0 <= i < |r| && slots[i].studioId != studioId ==> r[i] == slots[i])
  {
  }

  method MarkOverlappingSlotsAsBlocked(db: Database, start: Instant, end: Instant, studioId: Id, exclude: Option<Id>)
    requires db.Valid()
    modifies db`slots
    ensures db.Valid()
    ensures db.slots == Blocked(old(db.slots), start, end, studioId, exclude)
  {
    BlockedExactly(db.slots, start, end, studioId, exclude);
    SameRowsValid(db.slots, Blocked(db.slots, start, end, studioId, exclude), db.bookings, db.rules, db.nextId);
    db.slots := Blocked(db.slots, start, end, studioId, exclude);
  }

  // ---------------------------------------------------------------------------
  // Hold release (the bulk update of `releaseExpiredHolds`, which works on this table)

  /** A `requested` slot whose hold lies before `now`; a null hold never expires. */
  predicate HoldExpired(s: Slot, now: Instant) {
    s.status == Requested && s.holdExpiresAt.Some? && s.holdExpiresAt.value < now
  }

  function Released(slots: seq<Slot>, now: Instant): (r: seq<Slot>)
    ensures |r| == |slots|
    ensures forall i :: 0 <= i < |r| ==>
      r[i] == if HoldExpired(slots[i], now) then slots[i].(status := Available, holdExpiresAt := None) else slots[i]
  {
    if slots == [] then []
    else
      var head := if HoldExpired(slots[0], now) then slots[0].(status := Available, holdExpiresAt := None) else slots[0];
      [head] + Released(slots[1..], now)
  }

  /** Releasing frees exactly the expired holds, leaves no expired hold behind and changes nothing else. */
  lemma ReleasedExactly(slots: seq<Slot>, now: Instant)
    ensures var r := Released(slots, now);
      && SameRows(slots, r)
      && (forall i :: 0 <= i < |r| ==> !HoldExpired(r[i], now))
      && (forall i :: 0 <= i < |r| ==> (r[i] != slots[i] <==> HoldExpired(slots[i], now)))
  {
  }

  /** Releasing twice at the same instant is releasing once. */
  lemma ReleasedIdempotent(slots: seq<Slot>, now: Instant)
    ensures Released(Released(slots, now), now) == Released(slots, now)
  {
    var r := Released(slots, now);
    var rr := Released(r, now);
    assert forall i :: 0 <= i < |r| ==> rr[i] == r[i];
  }

  // ---------------------------------------------------------------------------
  // fetchSlotsInRange, fetchAvailableSlots

  /** `start_at >= start`, `end_at < end` and the studio, as the range queries filter. */
  predicate InRange(s: Slot, start: Instant, end: Instant, studioId: Id) {
    s.startAt >= start && s.endAt < end && s.studioId == studioId
  }

  predicate IsOffered(s: Slot) {
    s.status == Available || s.status == Requested
  }

  /** `fetchSlotsInRange`: the studio's slots in the range, by ascending start. */
  function SlotsInRange(slots: seq<Slot>, start: Instant, end: Instant, studioId: Id): (r: seq<Slot>)
    ensures forall x :: x in r <==> x in slots && InRange(x, start, end, studioId)
    ensures SortedBy(r, StartOf)
    ensures multiset(r) <= multiset(slots)
  {
    SortBy(Filter(slots, s => InRange(s, start, end, studioId)), StartOf)
  }

  /** `fetchAvailableSlots`: the studio's `available` or `requested` slots in the range, by ascending start. */
  function AvailableSlotsInRange(slots: seq<Slot>, start: Instant, end: Instant, studioId: Id): (r: seq<Slot>)
    ensures forall x :: x in r <==> x in slots && InRange(x, start, end, studioId) && IsOffered(x)
    ensures SortedBy(r, StartOf)
    ensures multiset(r) <= multiset(slots)
  {
    SortBy(Filter(slots, s => InRange(s, start, end, studioId) && IsOffered(s)), StartOf)
  }

  /** Rows without repeats come back without repeats. */
  lemma SlotsInRangeDistinct(slots: seq<Slot>, start: Instant, end: Instant, studioId: Id)
    requires Distinct(slots)
    ensures Distinct(SlotsInRange(slots, start, end, studioId))
    ensures Distinct(AvailableSlotsInRange(slots, start, end, studioId))
  {
    var f := Filter(slots, s => InRange(s, start, end, studioId));
    FilterDistinct(slots, s => InRange(s, start, end, studioId));
    PermutationDistinct(f, SortBy(f, StartOf));
    var g := Filter(slots, s => InRange(s, start, end, studioId) && IsOffered(s));
    FilterDistinct(slots, s => InRange(s, start, end, studioId) && IsOffered(s));
    PermutationDistinct(g, SortBy(g, StartOf));
  }

  // ---------------------------------------------------------------------------
  // bulkInsertSlots

  datatype Insertion = Insertion(slots: seq<Slot>, inserted: seq<Slot>, nextId: nat)

  lemma HasKeyAppend(a: seq<Slot>, b: seq<Slot>, k: SlotKey)
    requires HasKey(a, k)
    ensures HasKey(a + b, k)
  {
    var i :| 0 <= i < |a| && KeyOf(a[i]) == k;
    assert KeyOf((a + b)[i]) == k;
  }

  /**
   * The upsert with `ignoreDuplicates` on `(studio_id, start_at, end_at)`: each draft
   * whose key is not yet in the table becomes a row under the next id; a draft whose key
   * is present (already, or from an earlier draft of the same call) is skipped silently.
   */
  function InsertDrafts(slots: seq<Slot>, drafts: seq<SlotDraft>, nextId: nat): (r: Insertion)
    ensures r.slots == slots + r.inserted
    ensures r.nextId == nextId + |r.inserted|
    decreases |drafts|
  {
    if drafts == [] then Insertion(slots, [], nextId)
    else if HasKey(slots, DraftKey(drafts[0])) then InsertDrafts(slots, drafts[1..], nextId)
    else
      var s := SlotOf(drafts[0], nextId);
      var rest := InsertDrafts(slots + [s], drafts[1..], nextId + 1);
      Insertion(rest.slots, [s] + rest.inserted, rest.nextId)
  }

  /** Inserted rows are drafts of the batch, numbered consecutively from `nextId`. */
  lemma {:induction false} InsertedRowsNumbered(slots: seq<Slot>, drafts: seq<SlotDraft>, nextId: nat)
    ensures forall i :: 0 <= i < |InsertDrafts(slots, drafts, nextId).inserted| ==>
      InsertDrafts(slots, drafts, nextId).inserted[i].id == nextId + i &&
      DraftOf(InsertDrafts(slots, drafts, nextId).inserted[i]) in drafts
    decreases |drafts|
  {
    if drafts != [] {
      var d := drafts[0];
      assert forall e :: e in drafts[1..] ==> e in drafts;
      if HasKey(slots, DraftKey(d)) {
        InsertedRowsNumbered(slots, drafts[1..], nextId);
      } else {
        var grown := slots + [SlotOf(d, nextId)];
        InsertedRowsNumbered(grown, drafts[1..], nextId + 1);
        var rest := InsertDrafts(grown, drafts[1..], nextId + 1).inserted;
        var r := InsertDrafts(slots, drafts, nextId).inserted;
        assert r == [SlotOf(d, nextId)] + rest;
        assert forall i :: 1 <= i < |r| ==> r[i] == rest[i - 1];
      }
    }
  }

  /**
   * Inserted rows carry keys that were not in the table before, and no two of them share a
   * key: each draft is tested against the table as the batch grows it.
   */
  lemma {:induction false} InsertedKeysFresh(slots: seq<Slot>, drafts: seq<SlotDraft>, nextId: nat)
    ensures forall i :: 0 <= i < |InsertDrafts(slots, drafts, nextId).inserted| ==>
      !HasKey(slots, KeyOf(InsertDrafts(slots, drafts, nextId).inserted[i]))
    ensures forall i, j :: 0 <= j < i < |InsertDrafts(slots, drafts, nextId).inserted| ==>
      KeyOf(InsertDrafts(slots, drafts, nextId).inserted[j]) != KeyOf(InsertDrafts(slots, drafts, nextId).inserted[i])
    decreases |drafts|
  {
    if drafts != [] {
      var d := drafts[0];
      if HasKey(slots, DraftKey(d)) {
        InsertedKeysFresh(slots, drafts[1..], nextId);
      } else {
        var s := SlotOf(d, nextId);
        var grown := slots + [s];
        InsertedKeysFresh(grown, drafts[1..], nextId + 1);
        var rest := InsertDrafts(grown, drafts[1..], nextId + 1).inserted;
        var r := InsertDrafts(slots, drafts, nextId).inserted;
        assert r == [s] + rest;
        forall i | 0 < i < |r| ensures r[i] == rest[i - 1] && !HasKey(grown, KeyOf(r[i])) {
          assert r[i] == rest[i - 1];
        }
        forall i | 0 <= i < |r| ensures !HasKey(slots, KeyOf(r[i])) {
          if i > 0 {
            forall j | 0 <= j < |slots| ensures KeyOf(slots[j]) != KeyOf(r[i]) {
              assert grown[j] == slots[j];
            }
          }
        }
        forall i, j | 0 <= j < i < |r| ensures KeyOf(r[j]) != KeyOf(r[i]) {
          if j == 0 {
            assert grown[|slots|] == s;
          } else {
            assert r[j] == rest[j - 1];
          }
        }
      }
    }
  }

  /** After the upsert, the key of every draft of the batch is in the table. */
  lemma {:induction false} InsertCoversDrafts(slots: seq<Slot>, drafts: seq<SlotDraft>, nextId: nat)
    ensures forall d :: d in drafts ==> HasKey(InsertDrafts(slots, drafts, nextId).slots, DraftKey(d))
    decreases |drafts|
  {
    if drafts != [] {
      var d := drafts[0];
      var r := InsertDrafts(slots, drafts, nextId);
      if HasKey(slots, DraftKey(d)) {
        InsertCoversDrafts(slots, drafts[1..], nextId);
        HasKeyAppend(slots, r.inserted, DraftKey(d));
      } else {
        var grown := slots + [SlotOf(d, nextId)];
        InsertCoversDrafts(grown, drafts[1..], nextId + 1);
        assert KeyOf(grown[|slots|]) == DraftKey(d);
        HasKeyAppend(grown, InsertDrafts(grown, drafts[1..], nextId + 1).inserted, DraftKey(d));
      }
      assert forall e :: e in drafts ==> e == d || e in drafts[1..];
    }
  }

  /** A batch whose keys are all present already inserts nothing: repeating an upsert adds no rows. */
  lemma {:induction false} InsertNothingNew(slots: seq<Slot>, drafts: seq<SlotDraft>, nextId: nat)
    requires forall d :: d in drafts ==> HasKey(slots, DraftKey(d))
    ensures InsertDrafts(slots, drafts, nextId) == Insertion(slots, [], nextId)
    decreases |drafts|
  {
    if drafts != [] {
      assert drafts[0] in drafts;
      assert forall e :: e in drafts[1..] ==> e in drafts;
      InsertNothingNew(slots, drafts[1..], nextId);
    }
  }

  /** The upsert never creates a second row with the same key. */
  lemma {:induction false} InsertKeepsKeysUnique(slots: seq<Slot>, drafts: seq<SlotDraft>, nextId: nat)
    requires UniqueKeys(slots)
    ensures UniqueKeys(InsertDrafts(slots, drafts, nextId).slots)
    decreases |drafts|
  {
    if drafts != [] {
      var d := drafts[0];
      if HasKey(slots, DraftKey(d)) {
        InsertKeepsKeysUnique(slots, drafts[1..], nextId);
      } else {
        var grown := slots + [SlotOf(d, nextId)];
        assert UniqueKeys(grown) by {
          forall i, j | 0 <= i < j < |grown| ensures KeyOf(grown[i]) != KeyOf(grown[j]) {
            if j == |slots| {
              assert grown[i] == slots[i];
            } else {
              assert grown[i] == slots[i] && grown[j] == slots[j];
            }
          }
        }
        InsertKeepsKeysUnique(grown, drafts[1..], nextId + 1);
      }
    }
  }

  /** Inserted rows get fresh ids, so the store's guarantees are kept. */
  lemma InsertDraftsValid(slots: seq<Slot>, bookings: seq<Booking>, rules: seq<AvailabilityRule>, nextId: nat, drafts: seq<SlotDraft>)
    requires TablesValid(slots, bookings, rules, nextId)
    ensures var r := InsertDrafts(slots, drafts, nextId); TablesValid(r.slots, bookings, rules, r.nextId)
  {
    var r := InsertDrafts(slots, drafts, nextId);
    InsertedRowsNumbered(slots, drafts, nextId);
    InsertKeepsKeysUnique(slots, drafts, nextId);
    assert forall i :: 0 <= i < |r.slots| ==> r.slots[i].id < r.nextId by {
      forall i | 0 <= i < |r.slots| ensures r.slots[i].id < r.nextId {
        if i >= |slots| {
          assert r.slots[i] == r.inserted[i - |slots|];
        } else {
          assert r.slots[i] == slots[i];
        }
      }
    }
    assert UniqueSlotIds(r.slots) by {
      forall i, j | 0 <= i < j < |r.slots| ensures r.slots[i].id != r.slots[j].id {
        if j >= |slots| {
          assert r.slots[j] == r.inserted[j - |slots|];
          if i >= |slots| {
            assert r.slots[i] == r.inserted[i - |slots|];
          }
        }
      }
    }
  }

  /** A single row with a fresh key under the next id keeps the tables valid. */
  lemma AppendSlotValid(slots: seq<Slot>, bookings: seq<Booking>, rules: seq<AvailabilityRule>, nextId: nat, slot: Slot)
    requires TablesValid(slots, bookings, rules, nextId)
    requires slot.id == nextId && !HasKey(slots, KeyOf(slot))
    ensures TablesValid(slots + [slot], bookings, rules, nextId + 1)
  {
    var r := slots + [slot];
    assert forall i :: 0 <= i < |slots| ==> r[i] == slots[i];
  }

  /** `bulkInsertSlots(rows)`: returns the rows actually inserted; an empty batch changes nothing. */
  method BulkInsertSlots(db: Database, drafts: seq<SlotDraft>) returns (inserted: seq<Slot>)
    requires db.Valid()
    modifies db`slots, db`nextId
    ensures db.Valid()
    ensures var r := InsertDrafts(old(db.slots), drafts, old(db.nextId));
      db.slots == r.slots && db.nextId == r.nextId && inserted == r.inserted
    ensures drafts == [] ==> inserted == [] && db.slots == old(db.slots) && db.nextId == old(db.nextId)
  {
    if |drafts| == 0 {
      return [];
    }
    InsertDraftsValid(db.slots, db.bookings, db.rules, db.nextId, drafts);
    var r := InsertDrafts(db.slots, drafts, db.nextId);
    db.slots, db.nextId := r.slots, r.nextId;
    inserted := r.inserted;
  }
}
