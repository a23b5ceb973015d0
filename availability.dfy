/**
 * Availability rules and slot materialisation (src/server/services/availability.ts):
 * listing, creating and deleting rules, adding a manual slot, and turning the weekly and
 * exception rules of a studio into concrete slots for a range of days.
 */
module Availability {
  import opened Wrappers
  import opened Seqs
  import opened Time
  import opened Types
  import opened Store
  import opened Config
  import opened SlotRepository

  // ---------------------------------------------------------------------------
  // Rules

  /** `listAvailabilityRules(studioId)`: the studio's rules in the order they were created. */
  function ListAvailabilityRules(rules: seq<AvailabilityRule>, studioId: Id): (r: seq<AvailabilityRule>)
    ensures forall x :: x in r <==> x in rules && x.studioId == studioId
    ensures |r| <= |rules|
  {
    Filter(rules, (x: AvailabilityRule) => x.studioId == studioId)
  }

  /** The fields of `UpsertAvailabilityRuleInput`; `None` is an absent or null field. */
  datatype RuleInput = RuleInput(
    ruleType: RuleType,
    weekday: Option<int>,
    startTime: string,
    endTime: string,
    date: Option<Day>,
    isOpen: Option<bool>,
    createdBy: Option<string>,
    studioId: Id)

  /**
   * The row `createAvailabilityRule` inserts: a weekly rule keeps its weekday (0 when
   * absent) and has no date, an exception keeps its date and has no weekday, and a rule
   * is open unless it says otherwise.
   */
  function RulePayload(input: RuleInput, id: Id): (rule: AvailabilityRule)
    ensures rule.id == id && rule.studioId == input.studioId && rule.ruleType == input.ruleType
    ensures rule.startTime == input.startTime && rule.endTime == input.endTime
    ensures input.ruleType == Weekly ==> rule.weekday == Some(input.weekday.GetOr(0)) && rule.date == None
    ensures input.ruleType == Exception ==> rule.weekday == None && rule.date == input.date
    ensures rule.isOpen == input.isOpen.GetOr(true) && rule.createdBy == input.createdBy
  {
    AvailabilityRule(
      id,
      input.studioId,
      input.ruleType,
      if input.ruleType == Weekly then Some(input.weekday.GetOr(0)) else None,
      if input.ruleType == Exception then input.date else None,
      input.startTime,
      input.endTime,
      input.isOpen.GetOr(true),
      input.createdBy)
  }

  /** The input that describes a stored rule field by field. */
  function InputOf(rule: AvailabilityRule): RuleInput {
    RuleInput(rule.ruleType, rule.weekday, rule.startTime, rule.endTime, rule.date, Some(rule.isOpen), rule.createdBy, rule.studioId)
  }

  /** A row in normal form: a weekly rule with a weekday and no date, or an exception without a weekday. */
  predicate Normalised(rule: AvailabilityRule) {
    if rule.ruleType == Weekly then rule.weekday.Some? && rule.date.None? else rule.weekday.None?
  }

  /** Every payload is in normal form, and normalising a row in normal form gives it back. */
  lemma RulePayloadNormalises(input: RuleInput, rule: AvailabilityRule, id: Id)
    ensures Normalised(RulePayload(input, id))
    ensures Normalised(rule) ==> RulePayload(InputOf(rule), rule.id) == rule
  {
  }

  /** `createAvailabilityRule`, for input that passed validation (times `HH:MM`, weekday 0 to 6). */
  method CreateAvailabilityRule(db: Database, input: RuleInput) returns (rule: AvailabilityRule)
    requires db.Valid()
    requires IsClockTime(input.startTime) && IsClockTime(input.endTime)
    requires input.weekday.Some? ==> 0 <= input.weekday.value < 7
    modifies db`rules, db`nextId
    ensures db.Valid()
    ensures rule == RulePayload(input, old(db.nextId))
    ensures db.rules == old(db.rules) + [rule] && db.nextId == old(db.nextId) + 1
  {
    rule := RulePayload(input, db.nextId);
    db.rules := db.rules + [rule];
    db.nextId := db.nextId + 1;
  }

  /** `deleteAvailabilityRule(id)`. */
  method DeleteAvailabilityRule(db: Database, id: Id)
    requires db.Valid()
    modifies db`rules
    ensures db.Valid()
    ensures db.rules == Filter(old(db.rules), (x: AvailabilityRule) => x.id != id)
    ensures forall x :: x in db.rules <==> x in old(db.rules) && x.id != id
  {
    db.rules := Filter(db.rules, (x: AvailabilityRule) => x.id != id);
  }

  // ---------------------------------------------------------------------------
  // createManualSlot

  /**
   * The row `createManualSlot` inserts under `id`: `available`, without hold, `manual`,
   * lasting the given duration or, when none is given, the configured one.
   */
  function ManualSlot(id: Id, start: Instant, studioId: Id, durationMinutes: Option<int>, configuredMinutes: int): Slot {
    Slot(id, studioId, start, start + durationMinutes.GetOr(configuredMinutes), Available, None, Manual)
  }

  /**
   * `createManualSlot(start, studioId, durationMinutes?)`: one `ManualSlot` is appended
   * under the next id. A slot with the same key already present makes the insert fail,
   * changing nothing. `configuredMinutes` is what `getSlotDurationMinutes()` returns
   * (`Config.GetSlotDurationMinutes` of the environment), read by the caller.
   */
  method CreateManualSlot(db: Database, start: Instant, studioId: Id, durationMinutes: Option<int>,
                          configuredMinutes: int)
    returns (r: Result<Slot, Failure>)
    requires db.Valid()
    modifies db`slots, db`nextId
    ensures db.Valid()
    ensures var slot := ManualSlot(old(db.nextId), start, studioId, durationMinutes, configuredMinutes);
      if HasKey(old(db.slots), KeyOf(slot)) then
        r == Err(DuplicateSlot) && db.slots == old(db.slots) && db.nextId == old(db.nextId)
      else
        r == Ok(slot) && db.slots == old(db.slots) + [slot] && db.nextId == old(db.nextId) + 1
  {
    var slot := ManualSlot(db.nextId, start, studioId, durationMinutes, configuredMinutes);
    if HasKey(db.slots, KeyOf(slot)) {
      r := Err(DuplicateSlot);
    } else {
      AppendSlotValid(db.slots, db.bookings, db.rules, db.nextId, slot);
      db.slots, db.nextId := db.slots + [slot], db.nextId + 1;
      r := Ok(slot);
    }
  }

  /**
   * The manual slot is an open `manual` row of the studio starting at `start`. It lasts the
   * duration given, or else the length configured by the environment, which is positive
   * and 60 minutes when nothing is set.
   */
  lemma ManualSlotDuration(id: Id, start: Instant, studioId: Id, durationMinutes: Option<int>,
                           slotDuration: Option<string>, publicSlotDuration: Option<string>)
    ensures var slot := ManualSlot(id, start, studioId, durationMinutes, GetSlotDurationMinutes(slotDuration, publicSlotDuration));
      var length := SlotDurationMinutes(SlotWindow(slot.startAt, slot.endAt));
      && slot.id == id && slot.studioId == studioId && slot.startAt == start
      && slot.status == Available && slot.holdExpiresAt.None? && slot.createdVia == Manual
      && (durationMinutes.Some? ==> length == durationMinutes.value)
      && (durationMinutes.None? ==> length == GetSlotDurationMinutes(slotDuration, publicSlotDuration) && slot.startAt < slot.endAt)
      && (durationMinutes.None? && slotDuration.None? && publicSlotDuration.None? ==> slot.endAt == start + 60)
  {
  }

  // ---------------------------------------------------------------------------
  // Windows of one day

  predicate AllWellFormed(rules: seq<AvailabilityRule>) {
    forall x :: x in rules ==> RuleWellFormed(x)
  }

  predicate IsWeeklyOn(rule: AvailabilityRule, weekday: int) {
    rule.ruleType == Weekly && rule.weekday == Some(weekday)
  }

  predicate IsExceptionOn(rule: AvailabilityRule, day: Day) {
    rule.ruleType == Exception && rule.date == Some(day)
  }

  /** The weekly rules for the day's weekday. */
  function WeeklyOn(rules: seq<AvailabilityRule>, day: Day): (r: seq<AvailabilityRule>)
    ensures forall x :: x in r <==> x in rules && IsWeeklyOn(x, Weekday(day))
  {
    Filter(rules, (x: AvailabilityRule) => IsWeeklyOn(x, Weekday(day)))
  }

  /** The exception rules dated that day. */
  function ExceptionsOn(rules: seq<AvailabilityRule>, day: Day): (r: seq<AvailabilityRule>)
    ensures forall x :: x in r <==> x in rules && IsExceptionOn(x, day)
  {
    Filter(rules, (x: AvailabilityRule) => IsExceptionOn(x, day))
  }

  /** The day's closing exceptions (`is_open === false`). */
  function ClosingOn(rules: seq<AvailabilityRule>, day: Day): (r: seq<AvailabilityRule>)
    ensures forall x :: x in r <==> x in rules && IsExceptionOn(x, day) && !x.isOpen
  {
    Filter(ExceptionsOn(rules, day), (x: AvailabilityRule) => !x.isOpen)
  }

  /** The day's opening exceptions (`is_open !== false`). */
  function OpeningOn(rules: seq<AvailabilityRule>, day: Day): (r: seq<AvailabilityRule>)
    ensures forall x :: x in r <==> x in rules && IsExceptionOn(x, day) && x.isOpen
  {
    Filter(ExceptionsOn(rules, day), (x: AvailabilityRule) => x.isOpen)
  }

  /** The windows of one rule on a day: its times anchored on the day, cut into increments. */
  function WindowsOfRule(rule: AvailabilityRule, day: Day, increment: int): seq<SlotWindow>
    requires RuleWellFormed(rule)
  {
    SlotWindows(CombineDateAndTime(day, rule.startTime), CombineDateAndTime(day, rule.endTime), increment)
  }

  /** `rules.flatMap(rule => buildSlotWindows(...))` on one day. */
  function RuleWindows(rules: seq<AvailabilityRule>, day: Day, increment: int): seq<SlotWindow>
    requires AllWellFormed(rules)
  {
    if rules == [] then []
    else
      var init := rules[..|rules| - 1];
      assert forall x :: x in init ==> x in rules;
      RuleWindows(init, day, increment) + WindowsOfRule(rules[|rules| - 1], day, increment)
  }

  /** A window is a window of the flat map exactly when it is a window of one of the rules. */
  lemma {:induction false} RuleWindowsMembership(rules: seq<AvailabilityRule>, day: Day, increment: int, w: SlotWindow)
    requires AllWellFormed(rules)
    ensures w in RuleWindows(rules, day, increment) <==>
      exists i :: 0 <= i < |rules| && w in WindowsOfRule(rules[i], day, increment)
  {
    if rules != [] {
      var init := rules[..|rules| - 1];
      assert forall x :: x in init ==> x in rules;
      RuleWindowsMembership(init, day, increment, w);
      assert forall i :: 0 <= i < |init| ==> init[i] == rules[i];
    }
  }

  /** The window overlaps the closing rule's hours on that day. */
  predicate Closes(w: SlotWindow, rule: AvailabilityRule, day: Day)
    requires RuleWellFormed(rule)
  {
    w.start < CombineDateAndTime(day, rule.endTime) && w.end > CombineDateAndTime(day, rule.startTime)
  }

  /** `closingRules.some(rule => overlaps)`. */
  function AnyCloses(w: SlotWindow, closing: seq<AvailabilityRule>, day: Day): (r: bool)
    requires AllWellFormed(closing)
    ensures r <==> exists i :: 0 <= i < |closing| && Closes(w, closing[i], day)
  {
    if closing == [] then false
    else
      assert forall x :: x in closing[1..] ==> x in closing;
      var rest := AnyCloses(w, closing[1..], day);
      assert rest <==> exists i :: 1 <= i < |closing| && Closes(w, closing[i], day) by {
        if rest {
          var i :| 0 <= i < |closing[1..]| && Closes(w, closing[1..][i], day);
          assert closing[1..][i] == closing[i + 1];
        }
        if exists i :: 1 <= i < |closing| && Closes(w, closing[i], day) {
          var i :| 1 <= i < |closing| && Closes(w, closing[i], day);
          assert closing[1..][i - 1] == closing[i];
        }
      }
      Closes(w, closing[0], day) || rest
  }

  /** `windows.filter(window => !closingRules.some(...))`. */
  function OutsideClosing(windows: seq<SlotWindow>, closing: seq<AvailabilityRule>, day: Day): (r: seq<SlotWindow>)
    requires AllWellFormed(closing)
    ensures forall w :: w in r <==> w in windows && !AnyCloses(w, closing, day)
  {
    if windows == [] then []
    else
      assert windows == [windows[0]] + windows[1..];
      (if AnyCloses(windows[0], closing, day) then [] else [windows[0]]) + OutsideClosing(windows[1..], closing, day)
  }

  /**
   * The windows `generateSlotsForRange` keeps for one day: the weekly rules' windows that
   * no closing exception overlaps, followed by the opening exceptions' windows. A day that
   * no rule matches has none.
   */
  function DayWindows(rules: seq<AvailabilityRule>, day: Day, increment: int): seq<SlotWindow>
    requires AllWellFormed(rules)
  {
    var weekly := WeeklyOn(rules, day);
    var exceptions := ExceptionsOn(rules, day);
    if weekly == [] && exceptions == [] then []
    else
      var closing := ClosingOn(rules, day);
      var opening := OpeningOn(rules, day);
      var windows := RuleWindows(weekly, day, increment);
      var kept := if closing != [] then OutsideClosing(windows, closing, day) else windows;
      if opening != [] then kept + RuleWindows(opening, day, increment) else kept
  }

  /**
   * A window is kept on a day exactly when it comes from a weekly rule for that weekday and
   * overlaps no closing exception of the day, or comes from an opening exception of the day
   * (so opening windows survive even when they overlap a closing rule).
   */
  lemma DayWindowsMembership(rules: seq<AvailabilityRule>, day: Day, increment: int, w: SlotWindow)
    requires AllWellFormed(rules)
    ensures w in DayWindows(rules, day, increment) <==>
      || (w in RuleWindows(WeeklyOn(rules, day), day, increment) && !AnyCloses(w, ClosingOn(rules, day), day))
      || w in RuleWindows(OpeningOn(rules, day), day, increment)
  {
    var weekly := WeeklyOn(rules, day);
    var exceptions := ExceptionsOn(rules, day);
    if weekly == [] && exceptions == [] {
      assert ClosingOn(rules, day) == [] && OpeningOn(rules, day) == [];
    }
    if ClosingOn(rules, day) == [] {
      assert !AnyCloses(w, ClosingOn(rules, day), day);
    }
  }

  /** A day without a weekly rule for its weekday and without an exception dated that day gets no windows. */
  lemma UnmatchedDayHasNoWindows(rules: seq<AvailabilityRule>, day: Day, increment: int)
    requires AllWellFormed(rules)
    requires forall x :: x in rules ==> !IsWeeklyOn(x, Weekday(day)) && !IsExceptionOn(x, day)
    ensures DayWindows(rules, day, increment) == []
  {
    var weekly := WeeklyOn(rules, day);
    var exceptions := ExceptionsOn(rules, day);
    assert forall x :: x !in weekly;
    assert forall x :: x !in exceptions;
  }

  // ---------------------------------------------------------------------------
  // Drafts queued for insertion

  /** The row queued for a window: `available`, no hold, created by a rule, for the studio. */
  function DraftFor(w: SlotWindow, studioId: Id): SlotDraft {
    SlotDraft(studioId, w.start, w.end, Available, None, ByRule)
  }

  function WindowOf(d: SlotDraft): SlotWindow {
    SlotWindow(d.startAt, d.endAt)
  }

  /** The `(start, end)` signatures of the slots found in the range. */
  function Signatures(existing: seq<Slot>): set<SlotWindow> {
    set s | s in existing :: SlotWindow(s.startAt, s.endAt)
  }

  /** The inner loop over one day's windows: a draft for every window whose signature is not taken. */
  function Drafts(windows: seq<SlotWindow>, taken: set<SlotWindow>, studioId: Id): seq<SlotDraft>
  {
    if windows == [] then []
    else
      var init, last := windows[..|windows| - 1], windows[|windows| - 1];
      Drafts(init, taken, studioId) + (if last in taken then [] else [DraftFor(last, studioId)])
  }

  /** Each draft is the draft of one of the windows, and that window is not taken. */
  lemma {:induction false} DraftsSound(windows: seq<SlotWindow>, taken: set<SlotWindow>, studioId: Id)
    ensures forall d :: d in Drafts(windows, taken, studioId) ==>
              d == DraftFor(WindowOf(d), studioId) && WindowOf(d) in windows && WindowOf(d) !in taken
  {
    if windows != [] {
      var init := windows[..|windows| - 1];
      DraftsSound(init, taken, studioId);
      assert forall w :: w in init ==> w in windows;
    }
  }

  /** Every window that is not taken has its draft. */
  lemma {:induction false} DraftsComplete(windows: seq<SlotWindow>, taken: set<SlotWindow>, studioId: Id)
    ensures forall w :: w in windows && w !in taken ==> DraftFor(w, studioId) in Drafts(windows, taken, studioId)
  {
    if windows != [] {
      var init, last := windows[..|windows| - 1], windows[|windows| - 1];
      DraftsComplete(init, taken, studioId);
      assert windows == init + [last];
    }
  }

  /** The windows each day gets from a studio's rules. */
  function RuleDayWindows(rules: seq<AvailabilityRule>, increment: int): Day -> seq<SlotWindow>
    requires AllWellFormed(rules)
  {
    (day: Day) => DayWindows(rules, day, increment)
  }

  /** The drafts queued over the `count` days from `first` on, day by day. */
  function RangeDrafts(dayWindows: Day -> seq<SlotWindow>, first: Day, count: nat, taken: set<SlotWindow>, studioId: Id): seq<SlotDraft>
  {
    if count == 0 then []
    else RangeDrafts(dayWindows, first, count - 1, taken, studioId) + Drafts(dayWindows(first + count - 1), taken, studioId)
  }

  lemma RangeDraftsStep(dayWindows: Day -> seq<SlotWindow>, first: Day, count: nat, taken: set<SlotWindow>, studioId: Id)
    ensures RangeDrafts(dayWindows, first, count + 1, taken, studioId)
         == RangeDrafts(dayWindows, first, count, taken, studioId) + Drafts(dayWindows(first + count), taken, studioId)
  {
  }

  /**
   * Every queued draft is `available`, without hold, created by a rule, for the studio,
   * and its window is not among the taken signatures.
   */
  lemma {:induction false} RangeDraftsSound(dayWindows: Day -> seq<SlotWindow>, first: Day, count: nat, taken: set<SlotWindow>, studioId: Id)
    ensures forall d :: d in RangeDrafts(dayWindows, first, count, taken, studioId) ==>
              && d.status == Available && d.holdExpiresAt.None? && d.createdVia == ByRule && d.studioId == studioId
              && d == DraftFor(WindowOf(d), studioId) && WindowOf(d) !in taken
  {
    if count > 0 {
      RangeDraftsSound(dayWindows, first, count - 1, taken, studioId);
      DraftsSound(dayWindows(first + count - 1), taken, studioId);
    }
  }

  /** Every untaken window of every day of the range is queued. */
  lemma {:induction false} RangeDraftsComplete(dayWindows: Day -> seq<SlotWindow>, first: Day, count: nat, taken: set<SlotWindow>, studioId: Id)
    ensures forall day, w :: first <= day < first + count && w in dayWindows(day) && w !in taken ==>
              DraftFor(w, studioId) in RangeDrafts(dayWindows, first, count, taken, studioId)
  {
    if count > 0 {
      RangeDraftsComplete(dayWindows, first, count - 1, taken, studioId);
      DraftsComplete(dayWindows(first + count - 1), taken, studioId);
    }
  }

  /** A draft queued with fewer signatures taken is queued with more taken, unless its window is among them. */
  lemma {:induction false} RangeDraftsMonotone(dayWindows: Day -> seq<SlotWindow>, first: Day, count: nat,
                                                small: set<SlotWindow>, large: set<SlotWindow>, studioId: Id)
    requires small <= large
    ensures forall d :: d in RangeDrafts(dayWindows, first, count, small, studioId) ==>
              d in RangeDrafts(dayWindows, first, count, large, studioId) || WindowOf(d) in large
  {
    if count > 0 {
      RangeDraftsMonotone(dayWindows, first, count - 1, small, large, studioId);
      DraftsSound(dayWindows(first + count - 1), small, studioId);
      DraftsComplete(dayWindows(first + count - 1), large, studioId);
    }
  }

  /** Taking signatures only removes drafts. */
  lemma {:induction false} RangeDraftsSubset(dayWindows: Day -> seq<SlotWindow>, first: Day, count: nat, taken: set<SlotWindow>, studioId: Id)
    ensures forall d :: d in RangeDrafts(dayWindows, first, count, taken, studioId) ==>
              d in RangeDrafts(dayWindows, first, count, {}, studioId)
  {
    if count > 0 {
      RangeDraftsSubset(dayWindows, first, count - 1, taken, studioId);
      DraftsSound(dayWindows(first + count - 1), taken, studioId);
      DraftsComplete(dayWindows(first + count - 1), {}, studioId);
    }
  }

  /** Days without windows queue nothing. */
  lemma {:induction false} NoWindowsNoDrafts(dayWindows: Day -> seq<SlotWindow>, first: Day, count: nat, taken: set<SlotWindow>, studioId: Id)
    requires forall day :: first <= day < first + count ==> dayWindows(day) == []
    ensures RangeDrafts(dayWindows, first, count, taken, studioId) == []
  {
    if count > 0 {
      NoWindowsNoDrafts(dayWindows, first, count - 1, taken, studioId);
    }
  }

  /** The number of days `eachDayOfInterval` yields from `start`'s day to `end`'s. */
  function DayCount(start: Instant, end: Instant): nat
    requires DayOf(start) <= DayOf(end)
  {
    DayOf(end) - DayOf(start) + 1
  }

  // ---------------------------------------------------------------------------
  // generateSlotsForRange

  datatype Generation = Generation(result: seq<Slot>, slots: seq<Slot>, nextId: nat)

  /**
   * What `generateSlotsForRange` returns and leaves in the slots table: nothing for a
   * studio without rules; otherwise the drafts for the days from `start`'s to `end`'s are
   * upserted, and the result is the slots already in range, alone when nothing was queued,
   * or together with the inserted rows ordered by start.
   */
  function Generate(slots: seq<Slot>, rules: seq<AvailabilityRule>, nextId: nat,
                    start: Instant, end: Instant, studioId: Id, increment: int): Generation
    requires AllWellFormed(rules) && DayOf(start) <= DayOf(end)
  {
    var studioRules := ListAvailabilityRules(rules, studioId);
    if studioRules == [] then Generation([], slots, nextId)
    else
      var existing := SlotsInRange(slots, start, end, studioId);
      var queued := RangeDrafts(RuleDayWindows(studioRules, increment), DayOf(start), DayCount(start, end), Signatures(existing), studioId);
      if queued == [] then Generation(existing, slots, nextId)
      else
        var ins := InsertDrafts(slots, queued, nextId);
        Generation(SortBy(existing + ins.inserted, StartOf), ins.slots, ins.nextId)
  }

  /** A studio without rules gets `[]` back, not its existing slots, and the table is untouched. */
  lemma NoRulesGenerateNothing(slots: seq<Slot>, rules: seq<AvailabilityRule>, nextId: nat,
                               start: Instant, end: Instant, studioId: Id, increment: int)
    requires AllWellFormed(rules) && DayOf(start) <= DayOf(end)
    requires forall x :: x in rules ==> x.studioId != studioId
    ensures Generate(slots, rules, nextId, start, end, studioId, increment) == Generation([], slots, nextId)
  {
    NoStudioRules(rules, studioId);
  }

  lemma {:induction false} NoStudioRules(rules: seq<AvailabilityRule>, studioId: Id)
    requires forall x :: x in rules ==> x.studioId != studioId
    ensures ListAvailabilityRules(rules, studioId) == []
    decreases |rules|
  {
    if rules != [] {
      assert rules[0] in rules;
      NoStudioRules(rules[1..], studioId);
    }
  }

  /**
   * Generation only appends rows, each `available`, without hold, created by a rule and
   * for the studio; the result is ordered by start and drawn from the table.
   */
  lemma GenerateContents(slots: seq<Slot>, rules: seq<AvailabilityRule>, nextId: nat,
                         start: Instant, end: Instant, studioId: Id, increment: int)
    requires AllWellFormed(rules) && DayOf(start) <= DayOf(end)
    ensures var g := Generate(slots, rules, nextId, start, end, studioId, increment);
      && |g.slots| >= |slots| && g.slots[..|slots|] == slots
      && (forall i :: |slots| <= i < |g.slots| ==>
            g.slots[i].status == Available && g.slots[i].holdExpiresAt.None? &&
            g.slots[i].createdVia == ByRule && g.slots[i].studioId == studioId)
      && SortedBy(g.result, StartOf)
      && (forall x :: x in g.result ==> x in g.slots)
  {
    var studioRules := ListAvailabilityRules(rules, studioId);
    var g := Generate(slots, rules, nextId, start, end, studioId, increment);
    if studioRules != [] {
      var existing := SlotsInRange(slots, start, end, studioId);
      var queued := RangeDrafts(RuleDayWindows(studioRules, increment), DayOf(start), DayCount(start, end), Signatures(existing), studioId);
      if queued != [] {
        var ins := InsertDrafts(slots, queued, nextId);
        assert g == Generation(SortBy(existing + ins.inserted, StartOf), slots + ins.inserted, ins.nextId);
        RangeDraftsSound(RuleDayWindows(studioRules, increment), DayOf(start), DayCount(start, end), Signatures(existing), studioId);
        InsertedRowsNumbered(slots, queued, nextId);
        forall i | |slots| <= i < |g.slots|
          ensures g.slots[i].status == Available && g.slots[i].holdExpiresAt.None? &&
                  g.slots[i].createdVia == ByRule && g.slots[i].studioId == studioId
        {
          assert g.slots[i] == ins.inserted[i - |slots|];
          assert DraftOf(g.slots[i]) in queued;
        }
        forall x | x in g.result ensures x in g.slots {
          assert x in existing || x in ins.inserted;
        }
      } else {
        assert g == Generation(existing, slots, nextId);
      }
    } else {
      assert g == Generation([], slots, nextId);
    }
  }

  /**
   * For a studio with rules, the result consists of exactly the slots already in range and
   * the rows generation appended, each once.
   */
  lemma GenerateResult(slots: seq<Slot>, rules: seq<AvailabilityRule>, nextId: nat,
                       start: Instant, end: Instant, studioId: Id, increment: int)
    requires AllWellFormed(rules) && DayOf(start) <= DayOf(end)
    requires ListAvailabilityRules(rules, studioId) != []
    ensures var g := Generate(slots, rules, nextId, start, end, studioId, increment);
      |slots| <= |g.slots| &&
      multiset(g.result) == multiset(SlotsInRange(slots, start, end, studioId)) + multiset(g.slots[|slots|..])
  {
    var studioRules := ListAvailabilityRules(rules, studioId);
    var g := Generate(slots, rules, nextId, start, end, studioId, increment);
    var existing := SlotsInRange(slots, start, end, studioId);
    var queued := RangeDrafts(RuleDayWindows(studioRules, increment), DayOf(start), DayCount(start, end), Signatures(existing), studioId);
    if queued != [] {
      var ins := InsertDrafts(slots, queued, nextId);
      assert g.slots[|slots|..] == ins.inserted;
    } else {
      assert g.slots[|slots|..] == [];
    }
  }

  /**
   * After generation, every window the rules give on every day of the range has a slot in
   * the table with the studio's key, whether it was there before or was just inserted.
   */
  lemma GenerateCovers(slots: seq<Slot>, rules: seq<AvailabilityRule>, nextId: nat,
                       start: Instant, end: Instant, studioId: Id, increment: int)
    requires AllWellFormed(rules) && DayOf(start) <= DayOf(end)
    ensures forall d :: d in RangeDrafts(RuleDayWindows(ListAvailabilityRules(rules, studioId), increment), DayOf(start), DayCount(start, end), {}, studioId) ==>
              HasKey(Generate(slots, rules, nextId, start, end, studioId, increment).slots, DraftKey(d))
  {
    var studioRules := ListAvailabilityRules(rules, studioId);
    var g := Generate(slots, rules, nextId, start, end, studioId, increment);
    if studioRules == [] {
      forall day | DayOf(start) <= day < DayOf(start) + DayCount(start, end)
        ensures RuleDayWindows(studioRules, increment)(day) == []
      {
        UnmatchedDayHasNoWindows(studioRules, day, increment);
      }
      NoWindowsNoDrafts(RuleDayWindows(studioRules, increment), DayOf(start), DayCount(start, end), {}, studioId);
    } else {
      var existing := SlotsInRange(slots, start, end, studioId);
      var taken := Signatures(existing);
      var queued := RangeDrafts(RuleDayWindows(studioRules, increment), DayOf(start), DayCount(start, end), taken, studioId);
      var all := RangeDrafts(RuleDayWindows(studioRules, increment), DayOf(start), DayCount(start, end), {}, studioId);
      RangeDraftsMonotone(RuleDayWindows(studioRules, increment), DayOf(start), DayCount(start, end), {}, taken, studioId);
      RangeDraftsSound(RuleDayWindows(studioRules, increment), DayOf(start), DayCount(start, end), {}, studioId);
      var ins := InsertDrafts(slots, queued, nextId);
      InsertCoversDrafts(slots, queued, nextId);
      assert g.slots == ins.slots by {
        if queued == [] {
          assert ins.slots == slots;
        }
      }
      forall d | d in all ensures HasKey(g.slots, DraftKey(d)) {
        if d !in queued {
          assert WindowOf(d) in taken;
          var s :| s in existing && SlotWindow(s.startAt, s.endAt) == WindowOf(d);
          assert KeyOf(s) == DraftKey(d);
          var i :| 0 <= i < |slots| && slots[i] == s;
          assert g.slots[i] == s;
        }
      }
    }
  }

  /** A repeat generation over the same range with the same rules adds no rows. */
  lemma GenerateIdempotent(slots: seq<Slot>, rules: seq<AvailabilityRule>, nextId: nat,
                           start: Instant, end: Instant, studioId: Id, increment: int)
    requires AllWellFormed(rules) && DayOf(start) <= DayOf(end)
    ensures var g := Generate(slots, rules, nextId, start, end, studioId, increment);
      var again := Generate(g.slots, rules, g.nextId, start, end, studioId, increment);
      again.slots == g.slots && again.nextId == g.nextId
  {
    var studioRules := ListAvailabilityRules(rules, studioId);
    var g := Generate(slots, rules, nextId, start, end, studioId, increment);
    if studioRules != [] {
      GenerateCovers(slots, rules, nextId, start, end, studioId, increment);
      var existing := SlotsInRange(g.slots, start, end, studioId);
      var taken := Signatures(existing);
      var queued := RangeDrafts(RuleDayWindows(studioRules, increment), DayOf(start), DayCount(start, end), taken, studioId);
      RangeDraftsSubset(RuleDayWindows(studioRules, increment), DayOf(start), DayCount(start, end), taken, studioId);
      InsertNothingNew(g.slots, queued, g.nextId);
    }
  }

  /** The loop over one day's windows, queueing a draft for every untaken signature. */
  method QueueWindows(queued: seq<SlotDraft>, windows: seq<SlotWindow>, taken: set<SlotWindow>, studioId: Id)
    returns (grown: seq<SlotDraft>)
    ensures grown == queued + Drafts(windows, taken, studioId)
  {
    grown := queued;
    for k := 0 to |windows|
      invariant grown == queued + Drafts(windows[..k], taken, studioId)
    {
      var w := windows[k];
      assert windows[..k + 1] == windows[..k] + [w];
      if w !in taken {
        grown := grown + [DraftFor(w, studioId)];
      }
    }
    assert windows[..|windows|] == windows;
  }

  /** The loop over the days of the range. */
  method QueueRange(rules: seq<AvailabilityRule>, firstDay: Day, days: nat, duration: int, taken: set<SlotWindow>, studioId: Id)
    returns (queued: seq<SlotDraft>)
    requires AllWellFormed(rules) && duration != 0
    ensures queued == RangeDrafts(RuleDayWindows(rules, duration), firstDay, days, taken, studioId)
  {
    queued := [];
    for n := 0 to days
      invariant queued == RangeDrafts(RuleDayWindows(rules, duration), firstDay, n, taken, studioId)
    {
      var windows := RuleDayWindows(rules, duration)(firstDay + n);
      RangeDraftsStep(RuleDayWindows(rules, duration), firstDay, n, taken, studioId);
      queued := QueueWindows(queued, windows, taken, studioId);
    }
  }

  /**
   * `generateSlotsForRange({start, end, studioId})` with the slot length read from the two
   * environment values; the days run from `start`'s to `end`'s.
   */
  method GenerateSlotsForRange(db: Database, start: Instant, end: Instant, studioId: Id,
                               slotDuration: Option<string>, publicSlotDuration: Option<string>)
    returns (result: seq<Slot>)
    requires db.Valid()
    requires DayOf(start) <= DayOf(end)
    modifies db`slots, db`nextId
    ensures db.Valid()
    ensures AllWellFormed(old(db.rules))
    ensures Generate(old(db.slots), old(db.rules), old(db.nextId), start, end, studioId,
                     GetSlotDurationMinutes(slotDuration, publicSlotDuration))
         == Generation(result, db.slots, db.nextId)
  {
    assert AllWellFormed(db.rules) by {
      forall x | x in db.rules ensures RuleWellFormed(x) {
        var i :| 0 <= i < |db.rules| && db.rules[i] == x;
      }
    }
    var rules := ListAvailabilityRules(db.rules, studioId);
    if |rules| == 0 {
      return [];
    }
    var duration := GetSlotDurationMinutes(slotDuration, publicSlotDuration);
    var existing := SlotsInRange(db.slots, start, end, studioId);
    var taken := Signatures(existing);
    var queued := QueueRange(rules, DayOf(start), DayCount(start, end), duration, taken, studioId);
    if |queued| == 0 {
      return existing;
    }
    var inserted := BulkInsertSlots(db, queued);
    result := SortBy(existing + inserted, StartOf);
  }
}
