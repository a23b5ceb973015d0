/**
 * Instants and wall-clock times (src/lib/time.ts). An instant is a whole number of
 * minutes since 1970-01-01T00:00Z and a day is a whole number of days since that date;
 * the server's local zone is taken to be UTC, so local midnight and UTC midnight agree.
 */
module Time {
  import opened Wrappers
  import opened JsString
  import opened Config

  type Instant = int
  type Day = int

  const MinutesPerDay: int := 1440

  /** `startOfDay`: the day an instant falls on (floor division, also for instants before 1970). */
  function DayOf(t: Instant): Day {
    t / MinutesPerDay
  }

  function MinuteOfDay(t: Instant): int {
    t % MinutesPerDay
  }

  /** `getUTCDay()`: 0 is Sunday; 1970-01-01 was a Thursday. */
  function Weekday(d: Day): (w: int)
    ensures 0 <= w < 7
  {
    (d + 4) % 7
  }

  /** Weekdays advance by one each day and repeat every seven days; day 0 is a Thursday. */
  lemma WeekdayCycle(d: Day)
    ensures Weekday(0) == 4
    ensures Weekday(d + 1) == (Weekday(d) + 1) % 7
    ensures Weekday(d + 7) == Weekday(d)
  {
  }

  /** A time of day as the rule store holds it: `HH:MM`, possibly followed by `:SS`. */
  predicate IsClockTime(t: string) {
    && |t| >= 5
    && IsDigit(t[0]) && IsDigit(t[1]) && t[2] == ':' && IsDigit(t[3]) && IsDigit(t[4])
    && (|t| == 5 || t[5] == ':')
  }

  /** The first field of `time.split(":").map(Number)`: the hours. */
  function ClockHours(t: string): (h: nat)
    requires IsClockTime(t)
    ensures h < 100
  {
    DigitValue(t[0]) * 10 + DigitValue(t[1])
  }

  /** The second field of `time.split(":").map(Number)`: the minutes. */
  function ClockMinutes(t: string): (m: nat)
    requires IsClockTime(t)
    ensures m < 100
  {
    DigitValue(t[3]) * 10 + DigitValue(t[4])
  }

  /**
   * `split(":")` cuts the time at its colons: the first field is the two hour digits, the
   * second the two minute digits, and anything after them starts a third field.
   */
  lemma ClockSplit(t: string)
    requires IsClockTime(t)
    ensures t[2] == ':' && ':' !in t[..2] && ':' !in t[3..5] && (|t| == 5 || t[5] == ':')
  {
  }

  /** The hours are what `Number` makes of the first field. */
  lemma HoursField(t: string)
    requires IsClockTime(t)
    ensures JsNumber(t[..2]) == Some(ClockHours(t))
  {
    assert t[..2] == [t[0], t[1]];
    TwoDigits(t[0], t[1]);
  }

  /** The minutes are what `Number` makes of the second field. */
  lemma MinutesField(t: string)
    requires IsClockTime(t)
    ensures JsNumber(t[3..5]) == Some(ClockMinutes(t))
  {
    assert t[3..5] == [t[3], t[4]];
    TwoDigits(t[3], t[4]);
  }

  /**
   * `combineDateAndTime(date, time)`: the date's midnight with the hours and minutes set
   * (seconds and milliseconds zeroed). Out-of-range fields roll over as `Date.setHours` does.
   */
  function CombineDateAndTime(day: Day, time: string): (at: Instant)
    requires IsClockTime(time)
    ensures ClockHours(time) < 24 && ClockMinutes(time) < 60 ==>
      DayOf(at) == day && MinuteOfDay(at) == ClockHours(time) * 60 + ClockMinutes(time)
  {
    var offset := ClockHours(time) * 60 + ClockMinutes(time);
    DayDecomposition(day, offset);
    day * MinutesPerDay + offset
  }

  lemma DayDecomposition(day: Day, offset: int)
    ensures 0 <= offset < MinutesPerDay ==>
      (day * MinutesPerDay + offset) / MinutesPerDay == day &&
      (day * MinutesPerDay + offset) % MinutesPerDay == offset
  {
  }

  /** On one day, a later wall-clock time gives a later instant. */
  lemma CombineMonotone(day: Day, earlier: string, later: string)
    requires IsClockTime(earlier) && IsClockTime(later)
    requires ClockMinutes(earlier) < 60 && ClockMinutes(later) < 60
    requires ClockHours(earlier) < ClockHours(later) ||
             (ClockHours(earlier) == ClockHours(later) && ClockMinutes(earlier) < ClockMinutes(later))
    ensures CombineDateAndTime(day, earlier) < CombineDateAndTime(day, later)
  {
  }

  /** The `SlotWindow` record: a start and an end instant. */
  datatype SlotWindow = SlotWindow(start: Instant, end: Instant)

  /** `isSameSlot(start, end, compare)`. */
  function IsSameSlot(start: Instant, end: Instant, compare: SlotWindow): (same: bool)
    ensures same <==> compare == SlotWindow(start, end)
  {
    start == compare.start && end == compare.end
  }

  lemma IsSameSlotSymmetric(a: SlotWindow, b: SlotWindow)
    ensures IsSameSlot(a.start, a.end, a)
    ensures IsSameSlot(a.start, a.end, b) <==> IsSameSlot(b.start, b.end, a)
  {
  }

  /** `slotDurationMinutes(slot)`: whole minutes from start to end. */
  function SlotDurationMinutes(w: SlotWindow): (minutes: int)
    ensures w.start + minutes == w.end
  {
    w.end - w.start
  }
}
