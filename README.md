# Studio booking engine — a Dafny model

This project models the slot and booking engine of a studio-booking web application.

- A studio publishes **availability rules**. Weekly rules give opening hours on a weekday. Exception rules open or close hours on one date.
- From these rules the server **materialises slots**: fixed-length windows stored in a `slots` table under the unique key `(studio_id, start_at, end_at)`.
- A visitor **requests** one or more slots. Each slot is put on a two-hour **hold** (status `requested`) and gets a `pending` **booking**. If a step fails half-way, the work done so far is compensated.
- An administrator **approves** a booking or **declines** it.
  - Approving marks the slot `approved`, declines the slot's other pending bookings, and `blocked`s every overlapping slot of the same studio.
  - Declining frees the slot unless another booking on it is approved.
- Lapsed holds are reclaimed lazily, before requests and listings.
- Two small pure helpers are included:
  - the slot-length setting read from two environment variables;
  - the slug derived from a studio's name.

The database is an in-memory `class Database` (module `Store`). It has four fields:
- `slots`, `bookings` and `rules`: sequences of rows;
- `nextId`: a counter that stands in for the store's id generation.

`Valid()` demands:
- unique ids in every table;
- the unique slot key;
- well-formed rule times;
- every id below `nextId`.

**Repository calls** that change a table are methods. Each states its new table through a function on the old one (`SetStatus`, `Blocked`, `Released`, `DeclinedForSlot`, `WithoutIds`, `InsertDrafts`). Read-only queries are functions with their filter and order stated outright.

**Service operations** are methods whose `ensures` ties the outcome and the new tables to an effect function (`RequestEffect`, `ApproveEffect`, `DeclineEffect`, `Generate`). The promises of the workflow are proved about those functions:
- refusal;
- success;
- compensation;
- what approve and decline change;
- the cross-table invariant `Consistency.Consistent`.

**Representation choices:**
- Instants are whole minutes since 1970-01-01T00:00Z.
- Days are day indices. Day 0 is a Thursday.
- The server's zone is UTC.
- Store failures that the code reacts to become parameters:
  - `failing`: the slots whose booking insert throws;
  - `cleanupFails`: the rollback's delete fails and the failure is only logged.

## Model

| member | source | states |
|---|---|---|
| Types.SlotOf | src/types/index.ts:5-13 | the row stored for a draft carries the draft's key and fields and the id assigned to it |
| Time.Weekday | src/server/services/availability.ts:78 | `getUTCDay()` of a day lies in 0..6 |
| Time.WeekdayCycle | src/server/services/availability.ts:78 | day 0 (1970-01-01) is a Thursday; weekdays advance by one per day and repeat every seven days |
| Time.ClockHours | src/lib/time.ts:43 | the hours: the value of the two digits before the first colon, below 100 |
| Time.ClockMinutes | src/lib/time.ts:43 | the minutes: the value of the two digits after the first colon, below 100 |
| Time.ClockSplit | src/lib/time.ts:43 | `split(":")` cuts an `HH:MM[:SS]` time at its colons: the hour digits form the first field, the minute digits the second |
| Time.HoursField | src/lib/time.ts:43 | `Number` of the first field is exactly `ClockHours` |
| Time.MinutesField | src/lib/time.ts:43 | `Number` of the second field is exactly `ClockMinutes` |
| Time.CombineDateAndTime | src/lib/time.ts:41-50 | for an in-range time, the instant is the day's midnight plus `HH*60+MM` minutes; it falls on that day, at that minute of the day |
| Time.CombineMonotone | src/lib/time.ts:41-50 | on one day, a strictly later `(HH, MM)` gives a strictly later instant |
| Time.IsSameSlot | src/lib/time.ts:52-57 | true exactly when both the start and the end instants are equal |
| Time.IsSameSlotSymmetric | src/lib/time.ts:52-57 | `isSameSlot` is reflexive and symmetric |
| Time.SlotDurationMinutes | src/lib/time.ts:59-61 | the duration added to the start gives the end |
| Config.Decimal | src/server/config.ts:7 | the decimal spelling of a number is a non-empty run of digits |
| Config.DecimalRoundTrip | src/server/config.ts:7 | reading back the decimal spelling of a number gives the number |
| Config.JsNumberOfDecimal | src/server/config.ts:7 | `Number` of the decimal spelling of `n` is `n` |
| Config.JsNumber | src/server/config.ts:7 | defines `Number(s)`: white space trimmed, blank is 0, an optional sign then decimal digits is that integer, anything else NaN (`None`) |
| Config.TwoDigits | src/lib/time.ts:43 | `Number` of two decimal digits is ten times the first digit plus the second |
| Config.GetSlotDurationMinutes | src/server/config.ts:1-14 | the variable that wins is `SLOT_DURATION_MINUTES` when set, else the public one; when its `Number` is a positive number, that number is returned; otherwise (unset, empty, NaN, zero or negative) 60 is returned; the result is always positive |
| Config.SlotSettingWins | src/server/config.ts:2-4 | once `SLOT_DURATION_MINUTES` is defined, the public variable has no effect, even when the first is invalid |
| Config.InvalidSettingGivesDefault | src/server/config.ts:6-13 | an empty, unparsable, zero or negative setting gives 60, not the public value |
| Config.PositiveSettingKept | src/server/config.ts:8-9 | a positive decimal value is returned unchanged, from either variable |
| JsString.ToLowerAscii | src/components/admin/studios-client.tsx:83 | upper-case ASCII letters map to their lower-case letter; every other character is kept; the result is never upper-case |
| JsString.IsWhiteSpace | src/components/admin/studios-client.tsx:82 | defines the characters `trim` removes: the ECMAScript WhiteSpace and LineTerminator characters |
| JsString.TrimStart | src/components/admin/studios-client.tsx:82 | drops a run of leading white space; what remains is a suffix starting at a non-space |
| JsString.TrimEnd | src/components/admin/studios-client.tsx:82 | drops a run of trailing white space; what remains is a prefix ending at a non-space |
| JsString.Trim | src/components/admin/studios-client.tsx:82 | the trimmed string neither starts nor ends with white space |
| JsString.TrimUnchanged | src/components/admin/studios-client.tsx:82 | a string without outer white space is its own trim |
| JsString.TrimSplits | src/components/admin/studios-client.tsx:82 | the input is white space, then the trimmed string, then white space |
| Slug.LowerAscii | src/components/admin/studios-client.tsx:83 | `toLowerCase` keeps the length and lower-cases each character |
| Slug.CollapseRuns | src/components/admin/studios-client.tsx:84 | after replacing each run of non-`[a-z0-9]` by `-`, only `[a-z0-9-]` remain and there is no `--`; it is empty only for empty input; a leading slug character is kept |
| Slug.TrimDashes | src/components/admin/studios-client.tsx:85 | removing the outer dashes never lengthens the string; with no `--` inside, the result neither starts nor ends with `-` |
| Slug.SlugifyIsSlug | src/components/admin/studios-client.tsx:81-85 | every slug uses only `[a-z0-9-]`, contains no `--`, and neither starts nor ends with `-` |
| Slug.Slugify | src/components/admin/studios-client.tsx:81-85 | defines the slug as trim, then ASCII lower-case, then every run of non-`[a-z0-9]` replaced by one `-`, then a leading and a trailing `-` removed, in the source's order |
| Slug.CollapseKeepsSlugChars | src/components/admin/studios-client.tsx:84 | the non-dash characters after collapsing are exactly the `[a-z0-9]` characters before, in order |
| Slug.TrimDashesKeepsNonDashes | src/components/admin/studios-client.tsx:85 | removing the outer dashes keeps every non-dash character |
| Slug.TrimKeepsSlugChars | src/components/admin/studios-client.tsx:82-83 | the white space that `trim` removes contributes no `[a-z0-9]` character |
| Slug.SlugKeepsAlphanumerics | src/components/admin/studios-client.tsx:81-85 | the slug's non-dash characters are exactly the lower-cased ASCII letters and digits of the name, in order |
| Slug.NoAlphanumericsGivesEmpty | src/components/admin/studios-client.tsx:81-85 | a name without ASCII letters or digits gives the empty slug |
| Slug.CollapseFixed | src/components/admin/studios-client.tsx:84 | a string whose every dash is followed by a slug character is left unchanged by the collapse |
| Slug.SlugifyIdempotent | src/components/admin/studios-client.tsx:81-85 | slugifying a slug returns it unchanged |
| Slug.SlugifyTwice | src/components/admin/studios-client.tsx:81-85 | slugifying twice is slugifying once |
| Seqs.Filter | src/server/services/availability.ts:80-92 | `filter` keeps exactly the elements passing the test, in order, and no more of each than there were |
| Seqs.FilterAppend | src/server/services/availability.ts:80-92 | filtering a concatenation is concatenating the filtered parts |
| Seqs.SortBy | src/server/repositories/slots.ts:18 | ordering by a key gives a sorted permutation of the input |
| Seqs.SortBySorted | src/server/services/availability.ts:159-162 | re-ordering an already ordered sequence changes nothing |
| Seqs.Dedupe | src/server/services/booking.ts:58 | `Array.from(new Set(ids))` has no repeats, the same elements, and is empty only for empty input |
| Seqs.DistinctCard | src/server/services/booking.ts:58 | a sequence without repeats has as many distinct elements as positions |
| SlotRepository.SlotWindowsShape | src/server/repositories/slots.ts:121-143 | every window lasts the increment and lies within `[start, end]`; the first starts at `start`; consecutive windows touch |
| SlotRepository.SlotWindows | src/server/repositories/slots.ts:121-143 | defines the windows: from `start`, one window of `increment` minutes after another while the next end does not pass `end`; none when the increment is not positive |
| SlotRepository.BuildSlotWindows | src/server/repositories/slots.ts:121-143 | the `while` loop builds exactly the specified windows, for any non-zero increment |
| SlotRepository.SlotWindowsCount | src/server/repositories/slots.ts:130-134 | no windows for a non-positive increment or an empty range; otherwise `floor((end-start)/increment)` windows, since a trailing partial window is dropped |
| SlotRepository.FindSlot | src/server/repositories/slots.ts:49-57 | a found row is in the table with that id; none found means no row carries it |
| SlotRepository.FindSlotUnique | src/server/repositories/slots.ts:49-57 | with unique ids, the lookup finds the one row with that id |
| SlotRepository.SetStatus | src/server/repositories/slots.ts:49-55 | only rows with a listed id change, and only in status and hold |
| SlotRepository.SetStatusSingle | src/server/repositories/slots.ts:49-55 | with unique ids, updating one id updates exactly that row |
| SlotRepository.SetStatusAbsent | src/server/repositories/slots.ts:49-55 | updating ids no row carries changes nothing |
| SlotRepository.SetStatusIds | src/server/repositories/slots.ts:49-55 | status updates keep the ids of the table |
| SlotRepository.SetStatusUnion | src/server/services/booking.ts:205-210 | two updates to the same status and hold, one after the other, equal one update of the union |
| SlotRepository.SetStatusOverride | src/server/services/booking.ts:205-210 | a later update of a superset of rows overrides the earlier update entirely |
| SlotRepository.UpdateSlotStatus | src/server/repositories/slots.ts:42-64 | the named slot gets the status and the hold (null when none is given), and the updated row is returned; a missing row is an error and changes nothing |
| SlotRepository.Blocked | src/server/repositories/slots.ts:94-119 | each row becomes `blocked` when it is of the studio, not excluded, and overlaps `[start, end)`; it is unchanged otherwise |
| SlotRepository.BlockedExactly | src/server/repositories/slots.ts:102-112 | exactly the same-studio, non-excluded, overlapping rows are `blocked`; holds, ids, keys and every other row are untouched |
| SlotRepository.ShouldBlock | src/server/repositories/slots.ts:102-119 | defines which rows are blocked: rows of the studio overlapping `[start, end)` strictly (`start_at < end` and `end_at > start`), other than the excluded id |
| SlotRepository.MarkOverlappingSlotsAsBlocked | src/server/repositories/slots.ts:94-119 | the table becomes `Blocked` of the old table |
| SlotRepository.Released | src/server/services/booking.ts:34-46 | each `requested` row whose hold lies before `now` becomes `available` without hold; every other row is kept |
| SlotRepository.HoldExpired | src/server/services/booking.ts:37-41 | defines a lapsed hold: a `requested` row whose `hold_expires_at` is set and strictly before `now` |
| SlotRepository.ReleasedExactly | src/server/services/booking.ts:37-41 | a row changes exactly when its hold had expired, no expired hold remains, and ids and keys are kept |
| SlotRepository.ReleasedIdempotent | src/server/services/booking.ts:34-46 | releasing twice at the same instant is releasing once |
| SlotRepository.SlotsInRange | src/server/repositories/slots.ts:5-21 | exactly the studio's rows with `start_at >= start` and `end_at < end`, ascending by start, drawn from the table |
| SlotRepository.AvailableSlotsInRange | src/server/repositories/slots.ts:23-40 | exactly the studio's `available` or `requested` rows in the range, ascending by start |
| SlotRepository.SlotsInRangeDistinct | src/server/repositories/slots.ts:5-40 | neither query repeats a row |
| SlotRepository.InsertDrafts | src/server/repositories/slots.ts:66-92 | the upsert only appends rows and advances the id counter by their number |
| SlotRepository.InsertedRowsNumbered | src/server/repositories/slots.ts:75-81 | each inserted row is a draft of the batch, under the ids counted from `nextId` |
| SlotRepository.InsertedKeysFresh | src/server/repositories/slots.ts:75-81 | an inserted row's key was not in the table before the call, and no two inserted rows share a key |
| SlotRepository.InsertCoversDrafts | src/server/repositories/slots.ts:75-81 | after the upsert, every draft's key is in the table |
| SlotRepository.InsertNothingNew | src/server/repositories/slots.ts:75-81 | a batch whose keys are all present inserts nothing and raises no error |
| SlotRepository.InsertKeepsKeysUnique | src/server/repositories/slots.ts:75-81 | the upsert never creates a second row with the same key |
| SlotRepository.BulkInsertSlots | src/server/repositories/slots.ts:66-92 | the table and the rows returned are those of `InsertDrafts`; an empty batch returns `[]` and changes nothing |
| BookingRepository.NewBooking | src/server/repositories/bookings.ts:14-22 | the inserted booking is `pending`, for the slot, with the notes given (null when absent) and the new id |
| BookingRepository.CreateBooking | src/server/repositories/bookings.ts:4-33 | an insert that fails, or names no slot, changes nothing; otherwise one `pending` booking is appended under the next id |
| BookingRepository.FindBooking | src/server/repositories/bookings.ts:57-72 | a found booking is in the table with that id; none found means no booking carries it |
| BookingRepository.SetBookingStatus | src/server/repositories/bookings.ts:41-44 | only the named booking changes, and only in status |
| BookingRepository.UpdateBookingStatus | src/server/repositories/bookings.ts:35-55 | the named booking gets the status and is returned; a missing booking is an error and changes nothing |
| BookingRepository.DeclinedForSlot | src/server/repositories/bookings.ts:132-150 | each booking of the slot that is `pending` and not excluded becomes `declined`; every other booking is kept |
| BookingRepository.ShouldDecline | src/server/repositories/bookings.ts:132-150 | defines which bookings are declined: `pending` bookings of the slot other than the excluded id |
| BookingRepository.DeclinedExactly | src/server/repositories/bookings.ts:135-143 | a booking changes exactly when it is pending, of the slot and not excluded, and then only its status changes, to `declined` |
| BookingRepository.DeclineBookingsForSlot | src/server/repositories/bookings.ts:132-150 | the table becomes `DeclinedForSlot` of the old table |
| BookingRepository.WithoutIds | src/server/repositories/bookings.ts:192-201 | the bookings kept are exactly those whose id is not listed |
| BookingRepository.WithoutIdsRestores | src/server/services/booking.ts:200-212 | deleting the ids of appended bookings, and of none of the earlier ones, restores the earlier table |
| BookingRepository.DeleteBookingsByIds | src/server/repositories/bookings.ts:192-201 | an empty list, or a failed delete, changes nothing and raises nothing; otherwise the listed bookings are removed |
| BookingRepository.BookingsBySlot | src/server/repositories/bookings.ts:99-111 | exactly the bookings of the slot, whatever their status |
| BookingRepository.BookingsByIds | src/server/repositories/bookings.ts:113-130 | exactly the listed bookings, ascending by `created_at`; none for no ids |
| BookingRepository.PendingBookings | src/server/repositories/bookings.ts:74-97 | exactly the `pending` bookings (of the studio's slots when a studio is given), ascending by `created_at`, as many as the filter keeps |
| BookingRepository.PendingCountMatchesList | src/server/repositories/bookings.ts:152-190 | the overview's pending figure equals the length of the pending list for a studio; never exceeds it; equals it when every booking has its slot |
| BookingRepository.PendingCount | src/server/repositories/bookings.ts:152-172 | defines the `pending` figure: the number of `pending` bookings whose slot exists (inner join), of the studio when one is given |
| Availability.ListAvailabilityRules | src/server/services/availability.ts:37-51 | exactly the studio's rules, in table order |
| Availability.RulePayload | src/server/services/availability.ts:214-223 | a weekly rule stores `weekday ?? 0` and no date; an exception stores no weekday and the input's date; `is_open` defaults to true; the other fields are copied |
| Availability.RulePayloadNormalises | src/server/services/availability.ts:214-223 | every payload is in normal form, and a row in normal form comes back unchanged from its own fields |
| Availability.CreateAvailabilityRule | src/server/services/availability.ts:211-240 | the rule stored and returned is the payload under the next id, appended to the rules |
| Availability.DeleteAvailabilityRule | src/server/services/availability.ts:242-253 | exactly the rules with that id are removed, the rest kept in order |
| Availability.ManualSlot | src/server/services/availability.ts:171-181 | defines the row `createManualSlot` inserts: `available`, no hold, `manual`, for the studio, from `start` to `start + (duration ?? configured)` |
| Availability.CreateManualSlot | src/server/services/availability.ts:165-198 | one `available`, `manual` slot without hold is appended, ending `duration ?? configured` minutes after its start; a duplicate key is an error and changes nothing |
| Availability.ManualSlotDuration | src/server/services/availability.ts:171-181 | the row built for `createManualSlot` is an `available`, `manual` slot of the studio without hold, starting at `start`; it lasts the given duration, or else `getSlotDurationMinutes()`, which is positive and 60 when nothing is set |
| Availability.WeeklyOn | src/server/services/availability.ts:80-85 | exactly the weekly rules whose weekday is the day's weekday |
| Availability.ExceptionsOn | src/server/services/availability.ts:87-92 | exactly the exception rules dated that day |
| Availability.ClosingOn | src/server/services/availability.ts:108 | exactly the day's exceptions with `is_open === false` |
| Availability.OpeningOn | src/server/services/availability.ts:109 | exactly the day's exceptions with `is_open !== false` |
| Availability.RuleWindowsMembership | src/server/services/availability.ts:98-106 | a window belongs to the flat map exactly when it is a window of one of the rules |
| Availability.WindowsOfRule | src/server/services/availability.ts:98-106 | defines one rule's windows: its start and end times anchored on the day, cut by `buildSlotWindows` into increments |
| Availability.RuleWindows | src/server/services/availability.ts:98-106 | defines the `flatMap` over the rules: each rule's windows, concatenated in rule order |
| Availability.AnyCloses | src/server/services/availability.ts:111-124 | true exactly when some closing rule's hours overlap the window (`windowStart < ruleEnd && windowEnd > ruleStart`) |
| Availability.Closes | src/server/services/availability.ts:113-121 | defines the overlap test: the window starts before the rule's end and ends after its start, both times anchored on the day |
| Availability.OutsideClosing | src/server/services/availability.ts:111-124 | exactly the windows that no closing rule overlaps |
| Availability.DayWindows | src/server/services/availability.ts:76-137 | defines one day's windows: none when no weekly rule or exception matches the day; else the weekly windows, filtered against closing exceptions when there are any, followed by the opening exceptions' windows |
| Availability.DayWindowsMembership | src/server/services/availability.ts:98-137 | a window is kept on a day exactly when it is a weekly window that no closing rule overlaps, or an opening-exception window; opening windows survive a closing overlap |
| Availability.UnmatchedDayHasNoWindows | src/server/services/availability.ts:94-96 | a day without a matching weekly rule or a dated exception contributes nothing |
| Availability.DraftsSound | src/server/services/availability.ts:139-152 | every queued row is the draft of a window whose signature is not taken: `available`, no hold, `rule`, for the studio |
| Availability.Drafts | src/server/services/availability.ts:139-152 | defines the inner loop: in window order, an `available`, `rule`-created draft without hold for every window whose signature is not among the existing ones |
| Availability.DraftsComplete | src/server/services/availability.ts:139-152 | every window whose signature is not taken is queued |
| Availability.RangeDraftsSound | src/server/services/availability.ts:76-153 | every row queued over the range is the draft of an untaken window of one of its days |
| Availability.RangeDraftsComplete | src/server/services/availability.ts:76-153 | every untaken window of every day of the range is queued |
| Availability.RangeDraftsMonotone | src/server/services/availability.ts:69-72 | a draft queued with fewer signatures taken is also queued with more taken, unless its window is among the added ones |
| Availability.RangeDraftsSubset | src/server/services/availability.ts:69-72 | taking signatures only removes drafts |
| Availability.RangeDrafts | src/server/services/availability.ts:76-153 | defines the outer loop: the drafts of each day of the range, day after day |
| Availability.NoWindowsNoDrafts | src/server/services/availability.ts:94-96 | days without windows queue nothing |
| Availability.NoRulesGenerateNothing | src/server/services/availability.ts:58-61 | a studio without rules gets `[]`, not its existing slots, and the table is untouched |
| Availability.Generate | src/server/services/availability.ts:53-163 | defines `generateSlotsForRange`: `[]` for a studio without rules; else the existing slots in range when nothing is queued; else the queued drafts are inserted and the result is the existing slots and the inserted ones, sorted by start |
| Availability.GenerateContents | src/server/services/availability.ts:139-162 | generation only appends rows, each `available`, without hold, `rule`, for the studio; the result is ordered by start and drawn from the table |
| Availability.GenerateResult | src/server/services/availability.ts:155-162 | for a studio with rules, the result is exactly the slots already in range plus the rows appended, each once (as a multiset) |
| Availability.GenerateCovers | src/server/services/availability.ts:139-162 | afterwards, every window the rules give on every day of the range has a row with the studio's key |
| Availability.GenerateIdempotent | src/server/services/availability.ts:155-162 | a repeat generation over the same range and rules adds no rows |
| Availability.QueueWindows | src/server/services/availability.ts:139-152 | the inner loop appends exactly the drafts of the untaken windows |
| Availability.QueueRange | src/server/services/availability.ts:76-153 | the day loop queues exactly the drafts specified for the range |
| Availability.GenerateSlotsForRange | src/server/services/availability.ts:53-163 | the result and the new table are those of `Generate`, with the slot length read from the two environment values |
| BookingService.ReleaseExpiredHolds | src/server/services/booking.ts:34-46 | the slots table becomes `Released` of the old table at `now` |
| BookingService.Matching | src/server/services/booking.ts:64-68 | exactly the rows whose id is requested |
| BookingService.Selected | src/server/services/booking.ts:64-68 | exactly the requested rows, ascending by `start_at` rather than the caller's order |
| BookingService.MatchingCount | src/server/services/booking.ts:64-68 | with unique row ids, the rows selected are as many as the requested ids that exist |
| BookingService.SelectionComplete | src/server/services/booking.ts:76-78 | the length check passes exactly when every deduplicated id names a row |
| BookingService.SelectedUniqueIds | src/server/services/booking.ts:64-68 | the selection carries no id twice |
| BookingService.Rejection | src/server/services/booking.ts:87-96 | a slot passes exactly when it is `available`, or `requested` with a null hold or a hold not later than `now`; otherwise it is refused as not bookable or on hold |
| BookingService.StopIndexMeaning | src/server/services/booking.ts:86-109 | the loop gets through exactly the slots that pass and book, and stops at the first one that is refused or whose insert fails |
| BookingService.StopIndex | src/server/services/booking.ts:86-109 | defines where the loop stops: the first slot that is refused or whose booking insert fails, or the end |
| BookingService.NewBookings | src/server/services/booking.ts:100-108 | defines the bookings the loop creates: one `pending` booking of the visitor per slot got through, in order, with consecutive ids |
| BookingService.HeldIds | src/server/services/booking.ts:98-108 | defines the slots put on hold by a loop that stopped: those got through, and the stopped slot when it passed the checks (it is updated before its insert) |
| BookingService.RollbackProcessedBookings | src/server/services/booking.ts:200-212 | nothing changes for an empty list; otherwise the processed bookings are deleted (unless the delete fails) and every processed slot is `available` without hold |
| BookingService.ResetProcessedSlots | src/server/services/booking.ts:205-210 | the loop resets exactly the processed slots to `available` without hold |
| BookingService.RequestBookings | src/server/services/booking.ts:48-128 | the answer and the new tables are those of `RequestEffect` |
| BookingService.RequestEffect | src/server/services/booking.ts:48-128 | defines `requestBookings`: lapsed holds released; an empty selection or a missing slot refused with no further change; otherwise the attempt over the slots sorted by start |
| BookingService.Attempt | src/server/services/booking.ts:80-117 | defines the loop and its `catch`: all slots held and their bookings fetched back on success; on a stop, the error of the stopped slot, the processed slots reset, and the processed bookings deleted unless that delete fails |
| BookingService.AttemptRequests | src/server/services/booking.ts:80-117 | the answer and the new tables are those of `Attempt` over the selection |
| BookingService.HoldSelected | src/server/services/booking.ts:86-109 | the loop ends in the `Stopped` state: the slots got through, and a slot whose insert failed, on hold; their bookings and pairs recorded; the failure that stopped it |
| BookingService.RequestSlot | src/server/services/booking.ts:87-108 | one turn either stops the loop with the failure or advances the progress by one slot |
| BookingService.HoldAndBook | src/server/services/booking.ts:98-106 | the slot is put on hold; the booking is inserted unless the insert fails, which then changes no booking |
| BookingService.AttemptSucceeds | src/server/services/booking.ts:115-127 | a loop that got through every slot answers with the fetched new bookings, the selection and the hold |
| BookingService.AttemptFails | src/server/services/booking.ts:110-113 | a loop that stopped early answers with the failure, after the rollback of the processed pairs |
| BookingService.ProcessedOf | src/server/services/booking.ts:108 | the processed pairs name exactly the slots got through and the bookings created for them |
| BookingService.ApproveBooking | src/server/services/booking.ts:130-156 | the answer and the new tables are those of `ApproveEffect` |
| BookingService.ApproveEffect | src/server/services/booking.ts:130-156 | defines `approveBooking`: not found and missing slot are errors; else slot `approved` without hold, other pending bookings of the slot declined, overlapping slots of the studio blocked, booking `approved` |
| BookingService.HasOtherApproved | src/server/services/booking.ts:174-175 | true exactly when some other booking in the list is `approved` |
| BookingService.DeclineBooking | src/server/services/booking.ts:158-189 | the answer and the new tables are those of `DeclineEffect` |
| BookingService.DeclineEffect | src/server/services/booking.ts:158-189 | defines `declineBooking`: not found and missing slot are errors; else booking `declined`, and the slot `available` without hold unless another booking of it is approved |
| BookingService.ListPendingBookings | src/server/services/booking.ts:191-194 | lapsed holds are released first, then exactly the pending bookings are listed |
| BookingService.ApproveApproves | src/server/services/booking.ts:141-155 | the booking and its slot come back approved; the booking becomes `approved`; the slot's other pending bookings become `declined`; the slot becomes `approved` without hold; other slots change only when same-studio and overlapping (to `blocked`) |
| BookingService.ApproveRefuses | src/server/services/booking.ts:131-139 | an unknown booking or a missing slot is refused with no change |
| BookingService.DeclineRefuses | src/server/services/booking.ts:158-170 | an unknown booking or a missing slot is refused with no change |
| BookingService.FindBookingUnique | src/server/repositories/bookings.ts:57-72 | with unique ids, the lookup finds the one booking with that id |
| BookingService.DeclineDeclines | src/server/services/booking.ts:172-188 | the booking becomes `declined`; the slot becomes `available` without hold exactly when no other booking on it is approved, even when it was `blocked`; nothing else changes |
| BookingService.DeclineSeesOther | src/server/services/booking.ts:174-175 | the check made after the update finds exactly the other approved bookings of the slot |
| RequestProperties.ReleasedKeepsIds | src/server/services/booking.ts:55 | the release keeps the ids of the table and their uniqueness |
| RequestProperties.AttemptErrors | src/server/services/booking.ts:87-113 | the attempt fails only as not bookable, on hold, or with a failed insert |
| RequestProperties.RequestRefused | src/server/services/booking.ts:58-78 | a request is refused after only the release exactly when it names no slot or names a missing one; the error says which |
| RequestProperties.RequestSucceedsExactly | src/server/services/booking.ts:48-128 | a request succeeds exactly when it names slots, all exist, and each is bookable after the release and gets its booking |
| RequestProperties.CreatedFresh | src/server/services/booking.ts:100-106 | the created bookings are pending, of the visitor, with ids from `nextId` on, one for each slot got through |
| RequestProperties.Selection | src/server/services/booking.ts:58-78 | the slots attempted are exactly the distinct named ids, drawn from the released table |
| RequestProperties.RequestIsAttempt | src/server/services/booking.ts:58-86 | a request naming existing slots is the attempt over their selection |
| RequestProperties.SucceededNamesExisting | src/server/services/booking.ts:58-78 | a successful request named at least one slot, and only existing ones |
| RequestProperties.AttemptSuccess | src/server/services/booking.ts:115-127 | a successful attempt got through every selected slot |
| RequestProperties.RequestSuccessSlots | src/server/services/booking.ts:80-108 | on success, every named slot is `requested` until `now + 2h`, every other row is as the release left it, and the answer carries those slots by start and the hold |
| RequestProperties.RequestSuccessBookings | src/server/services/booking.ts:100-123 | on success, every earlier booking is kept; exactly one new pending booking per distinct named slot is appended, with fresh ids; the answer is exactly those bookings |
| RequestProperties.FetchedAreCreated | src/server/services/booking.ts:115-117 | fetching the created ids back finds exactly the created bookings |
| RequestProperties.AttemptFailureSlots | src/server/services/booking.ts:110-212 | after a stop at the `k`-th slot: the insert failed exactly when the checks passed that slot; rows of the slots got through are `available` without hold; that slot's row is `requested` under the new hold when its insert failed; every other row is exactly as released |
| RequestProperties.AttemptFailureBookings | src/server/services/booking.ts:110-212 | after a failure, every earlier booking is kept and, unless the delete fails, no created booking remains |
| RequestProperties.FailedAttempt | src/server/services/booking.ts:110-113 | a failed request over existing slots is an attempt that stopped early |
| RequestProperties.RequestFailureBookings | src/server/services/booking.ts:110-113 | a failed request over existing slots fails as not bookable, on hold or with a failed insert; it keeps every earlier booking and, unless the delete fails, leaves none it created |
| RequestProperties.RequestFailureSlots | src/server/services/booking.ts:86-113 | a failed request stopped at one of the named slots: the named rows before it are `available` without hold; its row is `requested` under the new hold when its insert failed (which happens exactly when it passed the checks); every other row is exactly as the release left it |
| RequestProperties.StoppedNotDone | src/server/services/booking.ts:58-68 | the selection names distinct requested slots, so the slot the loop stopped at is not one of those it got through |
| RequestProperties.ReleasedRow | src/server/services/booking.ts:55 | the release keeps each row's id, and a later re-mark overwrites what it did |
| Consistency.OpenRowIsFree | src/server/services/booking.ts:141-146 | in consistent tables, an `available` or `requested` slot carries no approved booking |
| Consistency.Consistent | src/server/services/booking.ts:141-146 | defines the invariant the approval builds: one approved booking per slot, its slot `approved` or `blocked`, no pending booking beside it |
| Consistency.SetStatusKeepsConsistent | src/server/repositories/slots.ts:42-64 | re-marking only slots that carry no approved booking keeps the tables consistent |
| Consistency.ReleaseKeepsConsistent | src/server/services/booking.ts:34-46 | releasing holds keeps the tables consistent |
| Consistency.FewerActiveKeepsConsistent | src/server/repositories/bookings.ts:192-201 | removing bookings, or declining them, keeps the tables consistent |
| Consistency.AddPendingKeepsConsistent | src/server/repositories/bookings.ts:4-33 | adding pending bookings on slots without an approved booking keeps the tables consistent |
| Consistency.RequestKeepsConsistent | src/server/services/booking.ts:48-128 | `requestBookings` keeps the tables consistent, whatever its outcome |
| Consistency.AttemptKeepsConsistent | src/server/services/booking.ts:80-113 | the attempt and its compensation keep the tables consistent |
| Consistency.HeldAreFree | src/server/services/booking.ts:87-98 | every slot the attempt holds passed the check, so it carries no approved booking |
| Consistency.ApproveKeepsConsistent | src/server/services/booking.ts:130-156 | approving a pending booking keeps the tables consistent: at most one approved booking per slot, its slot taken, no pending booking beside it |
| Consistency.ApprovedTablesConsistent | src/server/services/booking.ts:141-146 | the tables left by approving a pending booking are consistent |
| Consistency.ApprovedOnlyOne | src/server/services/booking.ts:141-146 | after approving a pending booking, it is the only approved booking of its slot |
| Consistency.ApprovedSingle | src/server/services/booking.ts:141-146 | after approving a pending booking, no slot carries two approved bookings |
| Consistency.ApprovedTaken | src/server/services/booking.ts:141-144 | after an approval, the slot of every approved booking is `approved` or `blocked` |
| Consistency.ApprovedNoPending | src/server/services/booking.ts:142 | after approving a pending booking, no pending booking shares a slot with an approved one |
| Consistency.DeclineKeepsConsistent | src/server/services/booking.ts:158-189 | declining a booking keeps the tables consistent |
| Consistency.DeclinedTablesConsistent | src/server/services/booking.ts:172-179 | the tables left by a decline, row by row, are consistent |
| Consistency.ApproveBesideApprovedBreaksConsistency | src/server/services/booking.ts:130-146 | `approveBooking` does not check the booking's status: approving another booking of a slot that already has an approved one succeeds and leaves two approved bookings |

## Left out

- Supabase and every other store error is left out. Only the failures the code branches on are modelled:
  - a row that is not found;
  - a booking insert that throws (`failing`);
  - a rollback delete that only logs (`cleanupFails`);
  - the unique-key conflict of a manual slot.
- CreateManualSlot: any insert error of `createManualSlot` is modelled as the unique-key conflict, which is the one the store's constraints can raise. The configured length is a parameter, `configuredMinutes`, which the caller reads with `Config.GetSlotDurationMinutes`.
- Rollback slot updates in `rollbackProcessedBookings` are assumed to succeed. They run under `Promise.all`, so a failing update there would throw out of the `catch` block. They are modelled one after the other. The order does not matter, because they all write the same status.
- Timestamps are whole minutes, not ISO strings with milliseconds. Several things are therefore out of the model:
  - the textual signature comparison of `start_at_end_at`;
  - `localeCompare` ordering;
  - format mismatches between the store and `toISOString`.
- Ties in the store's `order` by `start_at` or `created_at` are modelled as a stable order. The store leaves their order unspecified.
- `created_at` is a logical stamp that grows with every insert. `updated_at` and booking tokens are left out.
- Time zones are reduced to UTC. The server is assumed to run in UTC, so `combineDateAndTime`'s local time and the day loop's UTC weekday agree. `formatDateTime`, `formatTime`, `toTimezone`, `getTimezone` and `bookingSummary` are presentation and are not part of this model.
- The clock is read once. `requestBookings` reads it twice, in `releaseExpiredHolds` and for the hold. The model uses a single `now` parameter for both.
- GenerateSlotsForRange: requires the start day not to come after the end day. The behaviour of `eachDayOfInterval` on an inverted interval depends on the library version.
- Config.GetSlotDurationMinutes: `Number` is modelled for optional surrounding white space, an optional sign and decimal digits. Other JavaScript numeric forms are read as NaN, and so give the default:
  - fractions;
  - exponents;
  - hexadecimal;
  - `Infinity`.
- Slug.LowerAscii: only ASCII letters are lower-cased. Unicode case mapping is left out.
- The overview's today and week counts come from SQL functions whose code is not part of this model. Only the pending count of `getAdminOverviewStats` is modelled.
- `fetchBookingById` reports "not found" as an error. Its message text is left out.
- The following are not part of this model:
  - e-mail and calendar attachments;
  - authentication;
  - HTTP route handlers and their status codes;
  - zod validation;
  - React components and hooks.
- Zod constraints that the services rely on appear as `requires`: for example, the rule times and weekday of `CreateAvailabilityRule`.
- Concurrency is left out. Each store call is an atomic, sequential step.
