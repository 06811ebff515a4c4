/**
 * The system-wide recurrence horizon and the clamp that resolves a rule's end
 * date against it.
 */
module EndDate {
  import opened JsStrings
  import opened Calendar

  /** The furthest date any recurrence may reach. */
  const MAX_REPEAT_END_DATE: string := "2025-12-31"

  /**
   * `clampToSystemMaxEndDate(repeatEndDate)`: an absent or empty end date
   * becomes the horizon, an end date that compares (as a string) after the
   * horizon is cut down to it, and any other end date is kept.
   */
  function ClampToSystemMaxEndDate(repeatEndDate: Option<string>): (r: string)
    ensures repeatEndDate.None? || repeatEndDate.value == [] ==> r == MAX_REPEAT_END_DATE
    ensures repeatEndDate.Some? && repeatEndDate.value != [] ==>
      (r == repeatEndDate.value <==> !Less(MAX_REPEAT_END_DATE, repeatEndDate.value))
    ensures r == MAX_REPEAT_END_DATE || r == repeatEndDate.value
    ensures r != [] && !Less(MAX_REPEAT_END_DATE, r)
  {
    match repeatEndDate
    case None => MAX_REPEAT_END_DATE
    case Some(s) =>
      if s == [] then MAX_REPEAT_END_DATE
      else if Less(MAX_REPEAT_END_DATE, s) then MAX_REPEAT_END_DATE
      else s
  }

  /** `getEffectiveEndDate(repeatEndDate)`: the same clamp under its other name. */
  function GetEffectiveEndDate(repeatEndDate: Option<string>): (r: string)
    ensures r == ClampToSystemMaxEndDate(repeatEndDate)
  {
    ClampToSystemMaxEndDate(repeatEndDate)
  }

  /**
   * An end date that the clamp bounds by calendar date: absent, empty, or a
   * `full-date` string with month 01..12 and day 01..31.
   */
  predicate InFormatEndDate(repeatEndDate: Option<string>)
  {
    match repeatEndDate
    case None => true
    case Some(s) => s == [] || (IsFullDateText(s) && InFormatRange(FullDateOf(s)))
  }

  /** The horizon as a date. */
  lemma HorizonDate()
    ensures IsFullDateText(MAX_REPEAT_END_DATE)
    ensures FullDateOf(MAX_REPEAT_END_DATE) == Date(2025, 12, 31)
    ensures ValidDate(Date(2025, 12, 31))
  {
    HorizonPieces();
    HorizonNumbers();
  }

  lemma HorizonPieces()
    ensures |MAX_REPEAT_END_DATE| == 10
    ensures MAX_REPEAT_END_DATE[4] == '-' && MAX_REPEAT_END_DATE[7] == '-'
    ensures MAX_REPEAT_END_DATE[..4] == "2025"
    ensures MAX_REPEAT_END_DATE[5..7] == "12"
    ensures MAX_REPEAT_END_DATE[8..] == "31"
  {
  }

  lemma HorizonNumbers()
    ensures AllDigits("2025") && DigitsValue("2025") == 2025
    ensures AllDigits("12") && DigitsValue("12") == 12
    ensures AllDigits("31") && DigitsValue("31") == 31
  {
    assert "2025"[..3] == "202" && "202"[..2] == "20" && "20"[..1] == "2" && "2"[..0] == [];
    assert "12"[..1] == "1" && "1"[..0] == [];
    assert "31"[..1] == "3" && "3"[..0] == [];
  }

  /** Clamping twice is clamping once. */
  lemma ClampIdempotent(repeatEndDate: Option<string>)
    ensures ClampToSystemMaxEndDate(Some(ClampToSystemMaxEndDate(repeatEndDate)))
            == ClampToSystemMaxEndDate(repeatEndDate)
  {
  }

  /**
   * On `full-date` strings the clamp is a clamp on dates: the result is the
   * earlier of the input and 2025-12-31, so it never lies after the horizon and
   * an input on or before the horizon is kept.
   */
  lemma ClampFullDate(s: string)
    requires IsFullDateText(s)
    ensures var r := ClampToSystemMaxEndDate(Some(s));
      && IsFullDateText(r)
      && DateLessEq(FullDateOf(r), Date(2025, 12, 31))
      && (r == s <==> DateLessEq(FullDateOf(s), Date(2025, 12, 31)))
      && (r != s ==> r == MAX_REPEAT_END_DATE)
  {
    HorizonDate();
    FullDateStringOrder(MAX_REPEAT_END_DATE, s);
  }

  /** The horizon's own parts, as the generator reads them. */
  lemma HorizonParts()
    ensures ToDateParts(MAX_REPEAT_END_DATE) == Some(Date(2025, 12, 31))
  {
    HorizonDate();
    FullDateParts(MAX_REPEAT_END_DATE);
  }

  /** The cases pinned down by the clamp's and the default's unit tests. */
  lemma ClampExamples()
    ensures ClampToSystemMaxEndDate(None) == "2025-12-31"
    ensures ClampToSystemMaxEndDate(Some("2026-01-01")) == "2025-12-31"
    ensures ClampToSystemMaxEndDate(Some("2025-12-15")) == "2025-12-15"
    ensures GetEffectiveEndDate(None) == "2025-12-31"
    ensures GetEffectiveEndDate(Some("2025-06-30")) == "2025-06-30"
  {
    NewYearIsPastHorizon();
    MidDecemberIsWithinHorizon();
    JuneIsWithinHorizon();
  }

  lemma NewYearIsPastHorizon()
    ensures Less(MAX_REPEAT_END_DATE, "2026-01-01")
  {
    LessConcat("202", "5-12-31", "202", "6-01-01");
  }

  lemma MidDecemberIsWithinHorizon()
    ensures !Less(MAX_REPEAT_END_DATE, "2025-12-15")
  {
    LessConcat("2025-12-", "31", "2025-12-", "15");
  }

  lemma JuneIsWithinHorizon()
    ensures !Less(MAX_REPEAT_END_DATE, "2025-06-30")
  {
    LessConcat("2025-", "12-31", "2025-", "06-30");
  }
}
