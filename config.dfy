/**
 * The slot length setting (src/server/config.ts). The two environment variables
 * `SLOT_DURATION_MINUTES` and `NEXT_PUBLIC_SLOT_DURATION_MINUTES` are passed in as
 * optional strings; `None` is an unset variable.
 */
module Config {
  import opened Wrappers
  import opened JsString

  const DefaultSlotDurationMinutes: int := 60

  predicate AllDigits(s: string) {
    forall i :: 0 <= i < |s| ==> IsDigit(s[i])
  }

  /** The value of a run of decimal digits, most significant first. */
  function DigitsValue(s: string): nat
    requires AllDigits(s)
  {
    if s == [] then 0 else DigitsValue(s[..|s| - 1]) * 10 + DigitValue(s[|s| - 1])
  }

  /** The decimal spelling of `n`, without leading zeros. */
  function Decimal(n: nat): (s: string)
    ensures |s| > 0 && AllDigits(s)
  {
    var digit := ((n % 10) + ('0' as int)) as char;
    if n < 10 then [digit] else Decimal(n / 10) + [digit]
  }

  /** Reading back the decimal spelling of a number gives the number. */
  lemma {:induction false} DecimalRoundTrip(n: nat)
    ensures DigitsValue(Decimal(n)) == n
  {
    var s := Decimal(n);
    assert s[..|s| - 1] == if n < 10 then [] else Decimal(n / 10);
    if n >= 10 {
      DecimalRoundTrip(n / 10);
    }
  }

  /**
   * `Number(s)` on a string, for the integer forms: surrounding white space is ignored,
   * a blank string is 0, and an optional sign followed by decimal digits is that integer.
   * `None` stands for NaN.
   */
  function JsNumber(s: string): Option<int> {
    var t := Trim(s);
    if t == [] then Some(0)
    else if |t| > 1 && (t[0] == '+' || t[0] == '-') && AllDigits(t[1..]) then
      var magnitude: int := DigitsValue(t[1..]);
      Some(if t[0] == '-' then -magnitude else magnitude)
    else if AllDigits(t) then Some(DigitsValue(t))
    else None
  }

  /** `Number` reads back the decimal spelling of any natural number. */
  lemma JsNumberOfDecimal(n: nat)
    ensures JsNumber(Decimal(n)) == Some(n)
  {
    var s := Decimal(n);
    assert !IsWhiteSpace(s[0]) && !IsWhiteSpace(s[|s| - 1]);
    TrimUnchanged(s);
    DecimalRoundTrip(n);
  }

  /** `Number` of two decimal digits, such as an `HH` or `MM` field, is their value. */
  lemma TwoDigits(hi: char, lo: char)
    requires IsDigit(hi) && IsDigit(lo)
    ensures JsNumber([hi, lo]) == Some(DigitValue(hi) * 10 + DigitValue(lo))
  {
    var s := [hi, lo];
    assert AllDigits(s);
    assert !IsWhiteSpace(s[0]) && !IsWhiteSpace(s[1]);
    TrimUnchanged(s);
    assert s[0] != '+' && s[0] != '-';
    assert s[..1][..0] == [];
    assert DigitsValue(s[..1]) == DigitValue(s[0]);
    assert DigitsValue(s) == DigitsValue(s[..1]) * 10 + DigitValue(s[1]);
  }

  /**
   * `getSlotDurationMinutes()`: `SLOT_DURATION_MINUTES ?? NEXT_PUBLIC_SLOT_DURATION_MINUTES`;
   * an empty, non-numeric or non-positive value falls back to 60.
   */
  function GetSlotDurationMinutes(slotDuration: Option<string>, publicSlotDuration: Option<string>): (minutes: int)
    ensures minutes > 0
    ensures slotDuration.None? && publicSlotDuration.None? ==> minutes == DefaultSlotDurationMinutes
    ensures minutes != DefaultSlotDurationMinutes ==>
      var setting := if slotDuration.Some? then slotDuration.value else publicSlotDuration.value;
      JsNumber(setting) == Some(minutes)
    ensures slotDuration.Some? || publicSlotDuration.Some? ==>
      var setting := if slotDuration.Some? then slotDuration.value else publicSlotDuration.value;
      JsNumber(setting).Some? && JsNumber(setting).value > 0 ==> minutes == JsNumber(setting).value
  {
    var envValue := if slotDuration.Some? then slotDuration else publicSlotDuration;
    if envValue.Some? && envValue.value != "" then
      var parsed := JsNumber(envValue.value);
      if parsed.Some? && parsed.value > 0 then parsed.value else DefaultSlotDurationMinutes
    else DefaultSlotDurationMinutes
  }

  /** Once `SLOT_DURATION_MINUTES` is set, the public variable no longer matters, even when the first is invalid. */
  lemma SlotSettingWins(setting: string, public1: Option<string>, public2: Option<string>)
    ensures GetSlotDurationMinutes(Some(setting), public1) == GetSlotDurationMinutes(Some(setting), public2)
  {
  }

  /** An unusable `SLOT_DURATION_MINUTES` gives the default, not the public value. */
  lemma InvalidSettingGivesDefault(setting: string, publicSetting: Option<string>)
    requires setting == "" || JsNumber(setting).None? || JsNumber(setting).value <= 0
    ensures GetSlotDurationMinutes(Some(setting), publicSetting) == DefaultSlotDurationMinutes
  {
  }

  /** A positive number of minutes, written in decimal, is used as it is, from either variable. */
  lemma PositiveSettingKept(n: nat, publicSetting: Option<string>)
    requires n > 0
    ensures GetSlotDurationMinutes(Some(Decimal(n)), publicSetting) == n
    ensures GetSlotDurationMinutes(None, Some(Decimal(n))) == n
  {
    JsNumberOfDecimal(n);
  }
}
