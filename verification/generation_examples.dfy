/**
 * The generator's unit-test scenarios, worked out on the model: a monthly rule
 * on the 31st and on the 30th over 2025, a yearly rule from 29 February 2024,
 * and a yearly rule from 28 February 2025 whose requested end lies past the
 * horizon.
 */
module GenerationExamples {
  import opened JsStrings
  import opened Calendar
  import opened EndDate
  import opened RepeatGeneration
  import opened Occurrences

  /** The months m..12 of year `y` that have a day `sd`, each with that day. */
  function MonthsWithDay(y: int, m: int, sd: int): seq<Date>
    requires 1 <= m
    decreases 12 - m
  {
    if m > 12 then []
    else (if sd <= MonthLength(y, m) then [Date(y, m, sd)] else []) + MonthsWithDay(y, m + 1, sd)
  }

  /**
   * A monthly rule of interval 1 that ends on 31 December of its own year
   * emits, from month `m` on, exactly the months of that year that have the
   * seed's day: short months are skipped and nothing moves to another day.
   */
  lemma {:induction false} MonthlyToYearEnd(y: int, m: int, sd: int, endKey: int)
    requires 1 <= m <= 12 && 1 <= sd <= 31 && endKey == KeyOf(Date(y, 12, 31))
    ensures MonthlyFrom(y, m, sd, 1, endKey) == MonthsWithDay(y, m, sd)
    decreases 12 - m
  {
    if m < 12 {
      KeyIncreasesWithMonth(y, m, y, 12, sd);
      MonthlyStep(y, m, sd, 1, endKey);
      MonthlyToYearEnd(y, m + 1, sd, endKey);
    } else {
      MonthlyStep(y, m, sd, 1, endKey);
      KeyAfterValidDate(Date(y, 12, 31), Date(y + 1, 1, sd));
      assert MonthsWithDay(y, 13, sd) == [];
    }
    DaysInMonthIsMonthLength(y, m);
  }

  /** The clamp keeps an end date of exactly 2025-12-31, whose key is the horizon's. */
  lemma HorizonEnd(seed: EventForm)
    requires seed.repeat.endDate == Some("2025-12-31")
    ensures EndKeyOf(seed) == Some(KeyOf(Date(2025, 12, 31)))
  {
    HorizonParts();
  }

  lemma MonthsWith31In2025()
    ensures MonthsWithDay(2025, 1, 31)
      == [Date(2025, 1, 31), Date(2025, 3, 31), Date(2025, 5, 31), Date(2025, 7, 31),
          Date(2025, 8, 31), Date(2025, 10, 31), Date(2025, 12, 31)]
  {
    assert !IsLeapYear(2025);
  }

  lemma MonthsWith30In2025()
    ensures MonthsWithDay(2025, 1, 30)
      == [Date(2025, 1, 30), Date(2025, 3, 30), Date(2025, 4, 30), Date(2025, 5, 30),
          Date(2025, 6, 30), Date(2025, 7, 30), Date(2025, 8, 30), Date(2025, 9, 30),
          Date(2025, 10, 30), Date(2025, 11, 30), Date(2025, 12, 30)]
  {
    assert !IsLeapYear(2025);
  }

  /** A seed whose start date and end key are known occurs on the dates of its rule's walk. */
  lemma SeedOccurrences(seed: EventForm, start: Date, endKey: int)
    requires seed.repeat.kind != NoRepeat
    requires ToDateParts(seed.date) == Some(start) && EndKeyOf(seed) == Some(endKey)
    ensures OccurrenceDates(seed) == DatesFor(seed.repeat.kind, EffectiveInterval(seed.repeat.interval), start, endKey)
  {
  }

  /** The scenarios' start dates parse to the dates their digits spell. */
  lemma ParsesJan31(s: string)
    requires s == "2025-01-31"
    ensures ToDateParts(s) == Some(Date(2025, 1, 31))
  {
    FullDateValue(s);
  }

  lemma ParsesJan30(s: string)
    requires s == "2025-01-30"
    ensures ToDateParts(s) == Some(Date(2025, 1, 30))
  {
    FullDateValue(s);
  }

  lemma ParsesLeapDay2024(s: string)
    requires s == "2024-02-29"
    ensures ToDateParts(s) == Some(Date(2024, 2, 29))
  {
    FullDateValue(s);
  }

  lemma ParsesFeb28(s: string)
    requires s == "2025-02-28"
    ensures ToDateParts(s) == Some(Date(2025, 2, 28))
  {
    FullDateValue(s);
  }

  lemma ParsesJan15(s: string)
    requires s == "2025-01-15"
    ensures ToDateParts(s) == Some(Date(2025, 1, 15))
  {
    FullDateValue(s);
  }

  /** Monthly from 2025-01-31 to 2025-12-31: only the seven months with a 31st. */
  lemma MonthlyOn31stExample(seed: EventForm)
    requires seed.date == "2025-01-31" && seed.repeat == RepeatInfo(Monthly, 1, Some("2025-12-31"))
    ensures OccurrenceDates(seed)
      == [Date(2025, 1, 31), Date(2025, 3, 31), Date(2025, 5, 31), Date(2025, 7, 31),
          Date(2025, 8, 31), Date(2025, 10, 31), Date(2025, 12, 31)]
  {
    var start, endKey := Date(2025, 1, 31), KeyOf(Date(2025, 12, 31));
    ParsesJan31(seed.date);
    HorizonEnd(seed);
    SeedOccurrences(seed, start, endKey);
    assert DatesFor(Monthly, 1, start, endKey) == MonthlyFrom(2025, 1, 31, 1, endKey);
    MonthlyToYearEnd(2025, 1, 31, endKey);
    MonthsWith31In2025();
  }

  /** Monthly from 2025-01-30 to 2025-12-31: every month but February. */
  lemma MonthlyOn30thExample(seed: EventForm)
    requires seed.date == "2025-01-30" && seed.repeat == RepeatInfo(Monthly, 1, Some("2025-12-31"))
    ensures OccurrenceDates(seed)
      == [Date(2025, 1, 30), Date(2025, 3, 30), Date(2025, 4, 30), Date(2025, 5, 30),
          Date(2025, 6, 30), Date(2025, 7, 30), Date(2025, 8, 30), Date(2025, 9, 30),
          Date(2025, 10, 30), Date(2025, 11, 30), Date(2025, 12, 30)]
  {
    var start, endKey := Date(2025, 1, 30), KeyOf(Date(2025, 12, 31));
    ParsesJan30(seed.date);
    HorizonEnd(seed);
    SeedOccurrences(seed, start, endKey);
    assert DatesFor(Monthly, 1, start, endKey) == MonthlyFrom(2025, 1, 30, 1, endKey);
    MonthlyToYearEnd(2025, 1, 30, endKey);
    MonthsWith30In2025();
  }

  /** 2024 is a leap year and 2025 is not. */
  lemma LeapYears2024And2025()
    ensures IsLeapYear(2024) && !IsLeapYear(2025)
  {
  }

  /** Yearly from 2024-02-29 to 2025-12-31: 2024 only, since 2025 is a common year. */
  lemma YearlyLeapDayExample(seed: EventForm)
    requires seed.date == "2024-02-29" && seed.repeat == RepeatInfo(Yearly, 1, Some("2025-12-31"))
    ensures OccurrenceDates(seed) == [Date(2024, 2, 29)]
  {
    var start, endKey := Date(2024, 2, 29), KeyOf(Date(2025, 12, 31));
    LeapYears2024And2025();
    ParsesLeapDay2024(seed.date);
    HorizonEnd(seed);
    SeedOccurrences(seed, start, endKey);
    assert YearlyRuleOf(2024, 2, 29) == LeapYearsOnly;
    assert DatesFor(Yearly, 1, start, endKey) == YearlyFrom(2024, 2, 29, 1, endKey, LeapYearsOnly);
    LeapDayWalk(2024, endKey);
  }

  /** From a 29 February in a leap year `y` to the end of the common year after it, the walk emits only `y`. */
  lemma LeapDayWalk(y: int, endKey: int)
    requires IsLeapYear(y) && !IsLeapYear(y + 1) && endKey == KeyOf(Date(y + 1, 12, 31))
    ensures YearlyFrom(y, 2, 29, 1, endKey, LeapYearsOnly) == [Date(y, 2, 29)]
  {
    KeyAfterValidDate(Date(y, 2, 29), Date(y + 1, 12, 31));
    YearlyStep(y, 2, 29, 1, endKey, LeapYearsOnly);
    KeyIncreasesWithMonth(y + 1, 2, y + 1, 12, 29);
    YearlyStep(y + 1, 2, 29, 1, endKey, LeapYearsOnly);
    KeyAfterValidDate(Date(y + 1, 12, 31), Date(y + 2, 2, 29));
    assert YearlyFrom(y + 2, 2, 29, 1, endKey, LeapYearsOnly) == [];
  }

  /**
   * Yearly from 2025-02-28 with end date 2028-12-31: the end is clamped to
   * 2025-12-31, so only 2025-02-28 is emitted.
   */
  lemma YearlyCommonFeb28Example(seed: EventForm)
    requires seed.date == "2025-02-28" && seed.repeat == RepeatInfo(Yearly, 1, Some("2028-12-31"))
    ensures OccurrenceDates(seed) == [Date(2025, 2, 28)]
  {
    ParsesFeb28(seed.date);
    PastHorizonEnd(seed);
    CommonFeb28ToHorizon(seed);
  }

  /** A yearly seed of interval 1 read as 2025-02-28 whose end key is the horizon's occurs on 2025-02-28 alone. */
  lemma CommonFeb28ToHorizon(seed: EventForm)
    requires seed.repeat.kind == Yearly && seed.repeat.interval == 1
    requires ToDateParts(seed.date) == Some(Date(2025, 2, 28)) && EndKeyOf(seed) == Some(KeyOf(Date(2025, 12, 31)))
    ensures OccurrenceDates(seed) == [Date(2025, 2, 28)]
  {
    var start, endKey := Date(2025, 2, 28), KeyOf(Date(2025, 12, 31));
    SeedOccurrences(seed, start, endKey);
    LeapYears2024And2025();
    assert YearlyRuleOf(2025, 2, 28) == CommonYearsOnly;
    assert DatesFor(Yearly, 1, start, endKey) == YearlyFrom(2025, 2, 28, 1, endKey, CommonYearsOnly);
    CommonFeb28Walk(2025, endKey);
  }

  /** An end date of 2028-12-31 is clamped to the horizon, so the walk ends at the key of 2025-12-31. */
  lemma PastHorizonEnd(seed: EventForm)
    requires seed.repeat.endDate == Some("2028-12-31")
    ensures EndKeyOf(seed) == Some(KeyOf(Date(2025, 12, 31)))
  {
    LessConcat("202", "5-12-31", "202", "8-12-31");
    assert Less(MAX_REPEAT_END_DATE, "2028-12-31");
    HorizonParts();
  }

  /** From 28 February of a common year `y` to the end of that year, the walk emits only `y`. */
  lemma CommonFeb28Walk(y: int, endKey: int)
    requires !IsLeapYear(y) && endKey == KeyOf(Date(y, 12, 31))
    ensures YearlyFrom(y, 2, 28, 1, endKey, CommonYearsOnly) == [Date(y, 2, 28)]
  {
    KeyAfterValidDate(Date(y, 2, 28), Date(y, 12, 31));
    YearlyStep(y, 2, 28, 1, endKey, CommonYearsOnly);
    KeyAfterValidDate(Date(y, 12, 31), Date(y + 1, 2, 28));
    assert YearlyFrom(y + 1, 2, 28, 1, endKey, CommonYearsOnly) == [];
  }

  /**
   * Without the horizon, the yearly walk from 2025-02-28 to 2028-12-31 emits
   * 2025, 2026 and 2027 and skips the leap year 2028.
   */
  lemma YearlyCommonFeb28Walk(endKey: int)
    requires endKey == KeyOf(Date(2028, 12, 31))
    ensures YearlyFrom(2025, 2, 28, 1, endKey, CommonYearsOnly)
      == [Date(2025, 2, 28), Date(2026, 2, 28), Date(2027, 2, 28)]
  {
    YearlyWalkStep(2025, endKey);
    YearlyWalkStep(2026, endKey);
    YearlyWalkStep(2027, endKey);
    YearlyWalkStep(2028, endKey);
    KeyAfterValidDate(Date(2028, 12, 31), Date(2029, 2, 28));
    assert YearlyFrom(2029, 2, 28, 1, endKey, CommonYearsOnly) == [];
    assert IsLeapYear(2028) && !IsLeapYear(2025) && !IsLeapYear(2026) && !IsLeapYear(2027);
  }

  lemma YearlyWalkStep(y: int, endKey: int)
    requires y <= 2028 && endKey == KeyOf(Date(2028, 12, 31))
    ensures YearlyFrom(y, 2, 28, 1, endKey, CommonYearsOnly)
      == (if IsLeapYear(y) then [] else [Date(y, 2, 28)]) + YearlyFrom(y + 1, 2, 28, 1, endKey, CommonYearsOnly)
  {
    KeyAfterValidDate(Date(y, 2, 28), Date(2028, 12, 31));
    YearlyStep(y, 2, 28, 1, endKey, CommonYearsOnly);
  }

  /**
   * The string clamp does not bound a malformed end date by the horizon: a
   * monthly rule from 2025-01-15 with end date `2025-11-99` compares below
   * `2025-12-31` as a string, so it is kept, and its day 99 of November rolls
   * over to 7 February 2026. The walk then emits 15 January 2026, after the
   * horizon.
   */
  lemma MalformedEndPassesHorizon(seed: EventForm)
    requires seed.date == "2025-01-15" && seed.repeat == RepeatInfo(Monthly, 1, Some("2025-11-99"))
    ensures Date(2026, 1, 15) in OccurrenceDates(seed)
    ensures KeyOf(Date(2025, 12, 31)) < KeyOf(Date(2026, 1, 15))
  {
    var start, endKey, late := Date(2025, 1, 15), KeyOf(Date(2025, 11, 99)), Date(2026, 1, 15);
    ParsesJan15(seed.date);
    MalformedEndKept(seed);
    SeedOccurrences(seed, start, endKey);
    assert DatesFor(Monthly, 1, start, endKey) == MonthlyFrom(2025, 1, 15, 1, endKey);
    NovemberDay99(2025);
    OnStrideByOne(12 * 2025 + 1, 12 * 2026 + 1);
    MonthlyMembership(2025, 1, 15, 1, endKey, late);
  }

  /** The clamp keeps `2025-11-99`, and the generator reads it as day 99 of November 2025. */
  lemma MalformedEndKept(seed: EventForm)
    requires seed.repeat.endDate == Some("2025-11-99")
    ensures EndKeyOf(seed) == Some(KeyOf(Date(2025, 11, 99)))
  {
    NovemberDay99IsBelowHorizon(seed.repeat.endDate.value);
    ParsesNov99(seed.repeat.endDate.value);
  }

  lemma NovemberDay99IsBelowHorizon(e: string)
    requires e == "2025-11-99"
    ensures !Less(MAX_REPEAT_END_DATE, e)
  {
    LessConcat("2025-1", "2-31", "2025-1", "1-99");
    assert !Less("2-31", "1-99");
    assert MAX_REPEAT_END_DATE == "2025-1" + "2-31" && e == "2025-1" + "1-99";
  }

  lemma ParsesNov99(s: string)
    requires s == "2025-11-99"
    ensures ToDateParts(s) == Some(Date(2025, 11, 99))
  {
    FullDateValue(s);
  }

  /** Day 99 of November runs past 31 December into the next year, beyond 15 January. */
  lemma NovemberDay99(y: int)
    ensures KeyOf(Date(y, 12, 31)) < KeyOf(Date(y + 1, 1, 15)) <= KeyOf(Date(y, 11, 99))
  {
    var i := 12 * y + 11;
    MonthStartStep(i);
    MonthStartStep(i + 1);
    DaysInMonthIsMonthLength(y, 11);
    DaysInMonthIsMonthLength(y, 12);
    assert 12 * (y + 1) + 1 == i + 2;
  }

  /**
   * The same overrun through the month: `2024-26-01` sorts before the horizon
   * and is kept, and month 26 of 2024 is February 2026.
   */
  lemma MonthOverflowPassesHorizon(seed: EventForm)
    requires seed.date == "2025-01-15" && seed.repeat == RepeatInfo(Monthly, 1, Some("2024-26-01"))
    ensures Date(2026, 1, 15) in OccurrenceDates(seed)
    ensures KeyOf(Date(2025, 12, 31)) < KeyOf(Date(2026, 1, 15))
  {
    var start, endKey, late := Date(2025, 1, 15), KeyOf(Date(2024, 26, 1)), Date(2026, 1, 15);
    ParsesJan15(seed.date);
    MonthOverflowKept(seed);
    SeedOccurrences(seed, start, endKey);
    assert DatesFor(Monthly, 1, start, endKey) == MonthlyFrom(2025, 1, 15, 1, endKey);
    MonthTwentySix(2025);
    OnStrideByOne(12 * 2025 + 1, 12 * 2026 + 1);
    MonthlyMembership(2025, 1, 15, 1, endKey, late);
  }

  /** The clamp keeps `2024-26-01`, and the generator reads it as day 1 of month 26 of 2024. */
  lemma MonthOverflowKept(seed: EventForm)
    requires seed.repeat.endDate == Some("2024-26-01")
    ensures EndKeyOf(seed) == Some(KeyOf(Date(2024, 26, 1)))
  {
    MonthTwentySixIsBelowHorizon(seed.repeat.endDate.value);
    ParsesMonth26(seed.repeat.endDate.value);
  }

  lemma MonthTwentySixIsBelowHorizon(e: string)
    requires e == "2024-26-01"
    ensures !Less(MAX_REPEAT_END_DATE, e)
  {
    LessConcat("202", "5-12-31", "202", "4-26-01");
    assert !Less("5-12-31", "4-26-01");
    assert MAX_REPEAT_END_DATE == "202" + "5-12-31" && e == "202" + "4-26-01";
  }

  lemma ParsesMonth26(s: string)
    requires s == "2024-26-01"
    ensures ToDateParts(s) == Some(Date(2024, 26, 1))
  {
    FullDateValue(s);
  }

  /** Day 1 of month 26 of the year before is 1 February, beyond 31 December and 15 January. */
  lemma MonthTwentySix(y: int)
    ensures KeyOf(Date(y, 12, 31)) < KeyOf(Date(y + 1, 1, 15)) <= KeyOf(Date(y - 1, 26, 1))
  {
    var i := 12 * y + 12;
    MonthStartStep(i);
    DaysInMonthIsMonthLength(y, 12);
    DaysInMonthIsMonthLength(y + 1, 1);
    MonthStartStep(i + 1);
    assert 12 * (y + 1) + 1 == i + 1;
    assert 12 * (y - 1) + 26 == i + 2;
  }

  /** An end date whose text sorts after the horizon is cut down to it, even when it is not a date. */
  lemma DayPastHorizonIsClamped(e: string)
    requires e == "2025-12-32"
    ensures ClampToSystemMaxEndDate(Some(e)) == MAX_REPEAT_END_DATE
  {
    LessConcat("2025-12-3", "1", "2025-12-3", "2");
    assert MAX_REPEAT_END_DATE == "2025-12-3" + "1" && e == "2025-12-3" + "2";
  }

  /** With a step of 1, every later month index is on the stride. */
  lemma {:induction false} OnStrideByOne(a: int, b: int)
    requires a <= b
    ensures OnStride(a, b, 1)
    decreases b - a
  {
    if a < b {
      OnStrideByOne(a + 1, b);
    }
  }
}
