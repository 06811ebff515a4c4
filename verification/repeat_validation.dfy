/**
 * The input validators of the repeat form: the end date of a rule against its
 * start date and the horizon, and the interval against 1..999. Each returns an
 * error message, or None where the source returns `null`.
 */
module RepeatValidation {
  import opened JsStrings
  import opened Calendar
  import opened EndDate
  import opened RepeatGeneration

  const INVALID_DATE_FORMAT: string := "유효한 날짜 형식이 아닙니다."
  const END_BEFORE_START: string := "반복 종료일은 시작일 이후여야 합니다."
  const END_AFTER_MAX: string := "반복 종료일은 2025-12-31 이전이어야 합니다."
  const INTERVAL_TOO_SMALL: string := "반복 간격은 1 이상이어야 합니다."
  const INTERVAL_TOO_LARGE: string := "반복 간격은 999 이하여야 합니다."

  /**
   * `new Date(s).getTime()` for a date-only string, in days since 1970-01-01
   * (UTC midnight), None for NaN. A `full-date` string with month 01..12 and
   * day 01..31 is accepted; a day past the end of its month rolls over into
   * the next month, as `Date.UTC` does.
   */
  function ParseDate(s: string): (r: Option<int>)
    ensures r.Some? ==> ToDateParts(s).Some? && r.value == KeyOf(ToDateParts(s).value)
  {
    if IsFullDateText(s) && InFormatRange(FullDateOf(s)) then
      FullDateParts(s);
      Some(KeyOf(FullDateOf(s)))
    else None
  }

  /** `new Date('2025-12-31')`: the horizon string, parsed, is the key of 31 December 2025. */
  function MaxDateKey(): (k: int)
    ensures k == KeyOf(Date(2025, 12, 31))
  {
    HorizonDate();
    FullDateParts(MAX_REPEAT_END_DATE);
    ParseDate(MAX_REPEAT_END_DATE).value
  }

  /**
   * `validateRepeatEndDate(startDate, endDate)`: no end date is fine; a date
   * that does not parse is reported first, then an end before the start,
   * then an end after the horizon.
   */
  function ValidateRepeatEndDate(startDate: string, endDate: string): (r: Option<string>)
    ensures endDate == [] ==> r == None
    ensures endDate != [] && (ParseDate(startDate).None? || ParseDate(endDate).None?)
      ==> r == Some(INVALID_DATE_FORMAT)
    ensures r == None || r == Some(INVALID_DATE_FORMAT) || r == Some(END_BEFORE_START) || r == Some(END_AFTER_MAX)
  {
    if endDate == [] then None
    else
      var start, end := ParseDate(startDate), ParseDate(endDate);
      if start.None? || end.None? then Some(INVALID_DATE_FORMAT)
      else if end.value < start.value then Some(END_BEFORE_START)
      else if end.value > MaxDateKey() then Some(END_AFTER_MAX)
      else None
  }

  /**
   * `validateRepeatInterval(interval)`: an interval below 1 or above 999 is
   * reported; 1..999 is accepted.
   */
  function ValidateRepeatInterval(interval: int): (r: Option<string>)
    ensures r == None <==> 1 <= interval <= 999
    ensures r == Some(INTERVAL_TOO_SMALL) <==> interval < 1
    ensures r == Some(INTERVAL_TOO_LARGE) <==> interval > 999
  {
    if interval < 1 then Some(INTERVAL_TOO_SMALL)
    else if interval > 999 then Some(INTERVAL_TOO_LARGE)
    else None
  }

  // -----------------------------------------------------------------------
  // The date parser
  // -----------------------------------------------------------------------

  /**
   * A real calendar date of a four-digit year, written by `toISO`, parses back
   * to its own key.
   */
  lemma ParseDateOfISO(dt: Date)
    requires ValidDate(dt) && 1000 <= dt.y <= 9999
    ensures ParseDate(DateToISO(dt)) == Some(KeyOf(dt))
  {
    var s := DateToISO(dt);
    assert ToDateParts(s) == Some(dt) && IsFullDateText(s);
    FullDateParts(s);
    assert FullDateOf(s) == dt;
  }

  // -----------------------------------------------------------------------
  // The end-date validator
  // -----------------------------------------------------------------------

  /**
   * For two real calendar dates in `full-date` form, the verdict is decided by
   * calendar order: an end before the start is reported (even when it is also
   * past the horizon), an end after the horizon is reported next, and an end
   * between the start (inclusive) and the horizon (inclusive) is accepted.
   */
  lemma EndDateVerdicts(startDate: string, endDate: string)
    requires IsFullDateText(startDate) && ValidDate(FullDateOf(startDate))
    requires IsFullDateText(endDate) && ValidDate(FullDateOf(endDate))
    ensures var s, e, r := FullDateOf(startDate), FullDateOf(endDate), ValidateRepeatEndDate(startDate, endDate);
      && (r == Some(END_BEFORE_START) <==> DateLess(e, s))
      && (r == Some(END_AFTER_MAX) <==> DateLessEq(s, e) && DateLess(Date(2025, 12, 31), e))
      && (r == None <==> DateLessEq(s, e) && DateLessEq(e, Date(2025, 12, 31)))
  {
    var s, e, max := FullDateOf(startDate), FullDateOf(endDate), Date(2025, 12, 31);
    assert endDate != [];
    assert ValidDate(max);
    KeyOrderIsDateOrder(e, s);
    KeyOrderIsDateOrder(max, e);
    MessagesDiffer();
  }

  /** The format message is reported exactly when there is an end date and one of the two dates does not parse. */
  lemma InvalidFormatVerdict(startDate: string, endDate: string)
    ensures ValidateRepeatEndDate(startDate, endDate) == Some(INVALID_DATE_FORMAT)
      <==> endDate != [] && (ParseDate(startDate).None? || ParseDate(endDate).None?)
  {
    MessagesDiffer();
  }

  /** The five messages are pairwise different. */
  lemma MessagesDiffer()
    ensures INVALID_DATE_FORMAT != END_BEFORE_START && INVALID_DATE_FORMAT != END_AFTER_MAX
    ensures END_BEFORE_START != END_AFTER_MAX
    ensures INTERVAL_TOO_SMALL != INTERVAL_TOO_LARGE
  {
    assert INVALID_DATE_FORMAT[0] != END_BEFORE_START[0];
    assert INVALID_DATE_FORMAT[0] != END_AFTER_MAX[0];
    assert END_BEFORE_START[8] != END_AFTER_MAX[8];
    assert INTERVAL_TOO_SMALL[8] != INTERVAL_TOO_LARGE[8];
  }

  /**
   * An end date the validator accepts is left unchanged by the generator's
   * clamp: both stop at the same horizon, 2025-12-31.
   */
  lemma AcceptedEndDateIsNotClamped(startDate: string, endDate: string)
    requires endDate != [] && ValidateRepeatEndDate(startDate, endDate) == None
    ensures ClampToSystemMaxEndDate(Some(endDate)) == endDate
  {
    var e := FullDateOf(endDate);
    HorizonDate();
    FullDateStringOrder(MAX_REPEAT_END_DATE, endDate);
    if Less(MAX_REPEAT_END_DATE, endDate) {
      KeyAfterValidDate(Date(2025, 12, 31), e);
      assert false;
    }
  }

  /**
   * A seed whose end date the validator accepts ends its walk at that date's
   * own key: the generator reads the end date as the validator does.
   */
  lemma AcceptedEndDateKey(seed: EventForm, endDate: string)
    requires seed.repeat.endDate == Some(endDate) && endDate != []
    requires ValidateRepeatEndDate(seed.date, endDate) == None
    ensures EndKeyOf(seed) == ParseDate(endDate)
  {
    AcceptedEndDateIsNotClamped(seed.date, endDate);
  }

  // -----------------------------------------------------------------------
  // The interval validator
  // -----------------------------------------------------------------------

  /** An interval the validator accepts is used by the generator as it is. */
  lemma AcceptedIntervalIsEffective(interval: int)
    requires ValidateRepeatInterval(interval) == None
    ensures EffectiveInterval(interval) == interval
  {
  }

  // -----------------------------------------------------------------------
  // The validators' unit-test scenarios
  // -----------------------------------------------------------------------

  /** An end date of 2025-01-01 for a start of 2025-12-31 is before the start. */
  lemma EndBeforeStartExample(startDate: string, endDate: string)
    requires startDate == "2025-12-31" && endDate == "2025-01-01"
    ensures ValidateRepeatEndDate(startDate, endDate) == Some(END_BEFORE_START)
  {
    FullDateValue(startDate);
    FullDateValue(endDate);
    EndDateVerdicts(startDate, endDate);
  }

  /** An end date of 2026-01-01 is past the horizon. */
  lemma EndAfterMaxExample(startDate: string, endDate: string)
    requires startDate == "2025-01-01" && endDate == "2026-01-01"
    ensures ValidateRepeatEndDate(startDate, endDate) == Some(END_AFTER_MAX)
  {
    FullDateValue(startDate);
    FullDateValue(endDate);
    EndDateVerdicts(startDate, endDate);
  }

  /** An end date of exactly 2025-12-31 for a start of 2025-01-01 is accepted. */
  lemma EndAtMaxExample(startDate: string, endDate: string)
    requires startDate == "2025-01-01" && endDate == "2025-12-31"
    ensures ValidateRepeatEndDate(startDate, endDate) == None
  {
    FullDateValue(startDate);
    FullDateValue(endDate);
    EndDateVerdicts(startDate, endDate);
  }

  /** Intervals 0 and 1000 are reported, 1 is accepted. */
  lemma IntervalExamples()
    ensures ValidateRepeatInterval(0) == Some(INTERVAL_TOO_SMALL)
    ensures ValidateRepeatInterval(1000) == Some(INTERVAL_TOO_LARGE)
    ensures ValidateRepeatInterval(1) == None
  {
  }
}
