/**
 * What `generateRepeatEvents` emits, stated on the walks `MonthlyFrom` and
 * `YearlyFrom` that its loops are proved against: the emitted dates ascend,
 * never pass the end, keep the seed's day (and month), appear exactly on the
 * rule's stride, and each instance is the seed with only its date replaced.
 */
module Occurrences {
  import opened JsStrings
  import opened Calendar
  import opened EndDate
  import opened RepeatGeneration

  /** Day keys strictly increase along the list. */
  predicate StrictlyAscending(ds: seq<Date>)
  {
    forall i, j | 0 <= i < j < |ds| :: KeyOf(ds[i]) < KeyOf(ds[j])
  }

  // -----------------------------------------------------------------------
  // Strides
  // -----------------------------------------------------------------------

  lemma {:induction false} OnStrideOrdered(a: int, b: int, step: int)
    requires step >= 1 && OnStride(a, b, step)
    ensures a <= b
    decreases b - a
  {
    if a != b {
      OnStrideOrdered(a + step, b, step);
    }
  }

  // -----------------------------------------------------------------------
  // The monthly walk
  // -----------------------------------------------------------------------

  /**
   * Every date of the monthly walk from (y, m) lies between the walk's first
   * nominal key and the end key, keeps the seed's day `sd` and lies in a month
   * with at least `sd` days; the keys strictly ascend.
   */
  lemma {:induction false} MonthlyBounds(y: int, m: int, sd: int, interval: int, endKey: int)
    requires interval >= 1
    ensures var ds := MonthlyFrom(y, m, sd, interval, endKey);
      && StrictlyAscending(ds)
      && forall dt | dt in ds ::
           ToDateKeyUTC(y, m, sd) <= KeyOf(dt) <= endKey && dt.d == sd && sd <= GetDaysInMonth(dt.y, dt.m)
    decreases endKey - ToDateKeyUTC(y, m, sd)
  {
    if ToDateKeyUTC(y, m, sd) <= endKey {
      MonthlyStep(y, m, sd, interval, endKey);
      var next := CarryMonths(y, m + interval);
      MonthlyBounds(next.0, next.1, sd, interval, endKey);
      var here := if sd <= GetDaysInMonth(y, m) then [Date(y, m, sd)] else [];
      var rest := MonthlyFrom(next.0, next.1, sd, interval, endKey);
      AscendingPrepend(here, rest, ToDateKeyUTC(y, m, sd));
    }
  }

  /** Prepending at most one date below every key of an ascending list keeps it ascending. */
  lemma AscendingPrepend(here: seq<Date>, rest: seq<Date>, key: int)
    requires |here| <= 1 && forall dt | dt in here :: KeyOf(dt) == key
    requires StrictlyAscending(rest) && forall dt | dt in rest :: key < KeyOf(dt)
    ensures StrictlyAscending(here + rest)
  {
    var all := here + rest;
    forall i, j | 0 <= i < j < |all|
      ensures KeyOf(all[i]) < KeyOf(all[j])
    {
      assert all[j] == rest[j - |here|];
      if i < |here| {
        assert all[i] in here && all[j] in rest;
      } else {
        assert all[i] == rest[i - |here|];
      }
    }
  }

  /**
   * The dates of the monthly walk from a real month (y, m): exactly the dates
   * with the seed's day `sd`, in a month 1..12 a whole number of `interval`s
   * after (y, m), not after the end key, in a month that has day `sd`.
   */
  predicate MonthlyHit(y: int, m: int, sd: int, interval: int, endKey: int, dt: Date)
    requires interval >= 1
  {
    && dt.d == sd
    && 1 <= dt.m <= 12
    && OnStride(12 * y + m, 12 * dt.y + dt.m, interval)
    && KeyOf(dt) <= endKey
    && sd <= GetDaysInMonth(dt.y, dt.m)
  }

  lemma {:induction false} MonthlyMembership(y: int, m: int, sd: int, interval: int, endKey: int, dt: Date)
    requires interval >= 1 && 1 <= m <= 12
    ensures dt in MonthlyFrom(y, m, sd, interval, endKey) <==> MonthlyHit(y, m, sd, interval, endKey, dt)
    decreases endKey - ToDateKeyUTC(y, m, sd)
  {
    if ToDateKeyUTC(y, m, sd) > endKey {
      MonthlyNoHitPastEnd(y, m, sd, interval, endKey, dt);
    } else {
      MonthlyStep(y, m, sd, interval, endKey);
      var next := CarryMonths(y, m + interval);
      MonthlyMembership(next.0, next.1, sd, interval, endKey, dt);
      MonthlyHitStep(y, m, sd, interval, endKey, dt);
    }
  }

  /** Once the nominal key is past the end, no later date of the stride is a hit. */
  lemma MonthlyNoHitPastEnd(y: int, m: int, sd: int, interval: int, endKey: int, dt: Date)
    requires interval >= 1 && 1 <= m <= 12 && ToDateKeyUTC(y, m, sd) > endKey
    ensures !MonthlyHit(y, m, sd, interval, endKey, dt)
  {
    var i, j := 12 * y + m, 12 * dt.y + dt.m;
    if MonthlyHit(y, m, sd, interval, endKey, dt) {
      OnStrideOrdered(i, j, interval);
      if i < j {
        KeyIncreasesWithMonth(y, m, dt.y, dt.m, sd);
      }
      assert false;
    }
  }

  /** A hit from (y, m) is (y, m, sd) itself where that day exists, or a hit from the next nominal month. */
  lemma MonthlyHitStep(y: int, m: int, sd: int, interval: int, endKey: int, dt: Date)
    requires interval >= 1 && 1 <= m <= 12 && ToDateKeyUTC(y, m, sd) <= endKey
    ensures var next := CarryMonths(y, m + interval);
      MonthlyHit(y, m, sd, interval, endKey, dt)
      <==> (dt == Date(y, m, sd) && sd <= GetDaysInMonth(y, m)) || MonthlyHit(next.0, next.1, sd, interval, endKey, dt)
  {
    var next := CarryMonths(y, m + interval);
    var i, j := 12 * y + m, 12 * dt.y + dt.m;
    assert 12 * next.0 + next.1 == i + interval;
    if OnStride(i + interval, j, interval) {
      OnStrideOrdered(i + interval, j, interval);
    }
    if i == j && 1 <= dt.m <= 12 {
      assert dt.y == y && dt.m == m;
    }
  }

  /** A seed date that is not after the end and exists in its month is the walk's first date. */
  lemma MonthlyStartsAtSeed(y: int, m: int, sd: int, interval: int, endKey: int)
    requires interval >= 1
    ensures ToDateKeyUTC(y, m, sd) > endKey ==> MonthlyFrom(y, m, sd, interval, endKey) == []
    ensures ToDateKeyUTC(y, m, sd) <= endKey && sd <= GetDaysInMonth(y, m) ==>
      |MonthlyFrom(y, m, sd, interval, endKey)| >= 1 && MonthlyFrom(y, m, sd, interval, endKey)[0] == Date(y, m, sd)
  {
    if ToDateKeyUTC(y, m, sd) <= endKey {
      MonthlyStep(y, m, sd, interval, endKey);
    }
  }

  // -----------------------------------------------------------------------
  // The yearly walk
  // -----------------------------------------------------------------------

  /**
   * Every date of the yearly walk from year `y` lies between the walk's first
   * nominal key and the end key, keeps the seed's month and day, and falls in
   * a year the rule admits; the keys strictly ascend.
   */
  lemma {:induction false} YearlyBounds(y: int, sm: int, sd: int, interval: int, endKey: int, rule: YearlyRule)
    requires interval >= 1
    ensures var ds := YearlyFrom(y, sm, sd, interval, endKey, rule);
      && StrictlyAscending(ds)
      && forall dt | dt in ds ::
           ToDateKeyUTC(y, sm, sd) <= KeyOf(dt) <= endKey && dt.m == sm && dt.d == sd && YearEmits(rule, dt.y, sm, sd)
    decreases endKey - ToDateKeyUTC(y, sm, sd)
  {
    if ToDateKeyUTC(y, sm, sd) <= endKey {
      YearlyStep(y, sm, sd, interval, endKey, rule);
      YearlyBounds(y + interval, sm, sd, interval, endKey, rule);
      var here := if YearEmits(rule, y, sm, sd) then [Date(y, sm, sd)] else [];
      var rest := YearlyFrom(y + interval, sm, sd, interval, endKey, rule);
      AscendingPrepend(here, rest, ToDateKeyUTC(y, sm, sd));
    }
  }

  /**
   * The dates of the yearly walk from year `y`: exactly the seed's month and
   * day in the years a whole number of `interval`s after `y` whose date is
   * not after the end key and which the rule admits.
   */
  predicate YearlyHit(y: int, sm: int, sd: int, interval: int, endKey: int, rule: YearlyRule, dt: Date)
    requires interval >= 1
  {
    && dt.m == sm
    && dt.d == sd
    && OnStride(y, dt.y, interval)
    && KeyOf(dt) <= endKey
    && YearEmits(rule, dt.y, sm, sd)
  }

  lemma {:induction false} YearlyMembership(y: int, sm: int, sd: int, interval: int, endKey: int, rule: YearlyRule,
                                            dt: Date)
    requires interval >= 1
    ensures dt in YearlyFrom(y, sm, sd, interval, endKey, rule) <==> YearlyHit(y, sm, sd, interval, endKey, rule, dt)
    decreases endKey - ToDateKeyUTC(y, sm, sd)
  {
    if ToDateKeyUTC(y, sm, sd) > endKey {
      if YearlyHit(y, sm, sd, interval, endKey, rule, dt) {
        OnStrideOrdered(y, dt.y, interval);
        if y < dt.y {
          KeyIncreasesWithMonth(y, sm, dt.y, sm, sd);
        }
        assert false;
      }
    } else {
      YearlyStep(y, sm, sd, interval, endKey, rule);
      YearlyMembership(y + interval, sm, sd, interval, endKey, rule, dt);
      YearlyBounds(y + interval, sm, sd, interval, endKey, rule);
      if dt == Date(y, sm, sd) {
        assert dt !in YearlyFrom(y + interval, sm, sd, interval, endKey, rule);
      }
    }
  }

  /**
   * The three yearly rules: from a 29 February seed only leap years emit, from
   * a 28 February seed in a common year only common years emit, and from any
   * other seed every stepped year in which the seed's day exists emits.
   */
  lemma YearlyRules(sy: int, sm: int, sd: int, interval: int, endKey: int, dt: Date)
    requires interval >= 1
    requires dt in YearlyFrom(sy, sm, sd, interval, endKey, YearlyRuleOf(sy, sm, sd))
    ensures sm == 2 && sd == 29 ==> IsLeapYear(dt.y)
    ensures sm == 2 && sd == 28 && !IsLeapYear(sy) ==> !IsLeapYear(dt.y)
    ensures !(sm == 2 && sd == 29) && !(sm == 2 && sd == 28 && !IsLeapYear(sy)) ==> sd <= GetDaysInMonth(dt.y, sm)
  {
    YearlyBounds(sy, sm, sd, interval, endKey, YearlyRuleOf(sy, sm, sd));
  }

  /** A real seed date emits in its own year under its own rule. */
  lemma SeedYearEmits(start: Date)
    requires ValidDate(start)
    ensures YearEmits(YearlyRuleOf(start.y, start.m, start.d), start.y, start.m, start.d)
  {
    DaysInMonthIsMonthLength(start.y, start.m);
  }

  /** A seed year that the rule admits and that is not after the end is the walk's first date. */
  lemma YearlyStartsAtSeed(y: int, sm: int, sd: int, interval: int, endKey: int, rule: YearlyRule)
    requires interval >= 1
    ensures ToDateKeyUTC(y, sm, sd) > endKey ==> YearlyFrom(y, sm, sd, interval, endKey, rule) == []
    ensures ToDateKeyUTC(y, sm, sd) <= endKey && YearEmits(rule, y, sm, sd) ==>
      |YearlyFrom(y, sm, sd, interval, endKey, rule)| >= 1
      && YearlyFrom(y, sm, sd, interval, endKey, rule)[0] == Date(y, sm, sd)
  {
    if ToDateKeyUTC(y, sm, sd) <= endKey {
      YearlyStep(y, sm, sd, interval, endKey, rule);
    }
  }

  // -----------------------------------------------------------------------
  // The generator's output
  // -----------------------------------------------------------------------

  /** Each instance is the seed with only its date replaced, and that date is the ISO text of its own date. */
  lemma InstancesAreSeedCopies(seed: EventForm, dates: seq<Date>, events: seq<EventForm>)
    requires InstancesOf(seed, dates, events)
    ensures |events| == |dates|
    ensures forall i | 0 <= i < |events| :: events[i].(date := seed.date) == seed && events[i].date == DateToISO(dates[i])
  {
  }

  /** The dates of any repeating rule ascend strictly and none has a key after the end key. */
  lemma DatesForAscendWithinEnd(kind: RepeatType, interval: int, start: Date, endKey: int)
    requires kind != NoRepeat && interval >= 1
    ensures StrictlyAscending(DatesFor(kind, interval, start, endKey))
    ensures forall dt | dt in DatesFor(kind, interval, start, endKey) :: KeyOf(dt) <= endKey
  {
    if kind == Monthly {
      MonthlyBounds(start.y, start.m, start.d, interval, endKey);
    } else if kind == Yearly {
      YearlyBounds(start.y, start.m, start.d, interval, endKey, YearlyRuleOf(start.y, start.m, start.d));
    }
  }

  /**
   * For a repeating seed, the dates emitted ascend strictly and none lies
   * after the end: with both dates readable, every key is at most the key of
   * the clamped end date, and with either one NaN nothing is emitted.
   */
  lemma OccurrencesAscendWithinEnd(seed: EventForm)
    requires seed.repeat.kind != NoRepeat
    ensures StrictlyAscending(OccurrenceDates(seed))
    ensures EndKeyOf(seed).None? || ToDateParts(seed.date).None? ==> OccurrenceDates(seed) == []
    ensures EndKeyOf(seed).Some? ==> forall dt | dt in OccurrenceDates(seed) :: KeyOf(dt) <= EndKeyOf(seed).value
  {
    var startParts, endKey := ToDateParts(seed.date), EndKeyOf(seed);
    if startParts.Some? && endKey.Some? {
      var interval := EffectiveInterval(seed.repeat.interval);
      assert OccurrenceDates(seed) == DatesFor(seed.repeat.kind, interval, startParts.value, endKey.value);
      DatesForAscendWithinEnd(seed.repeat.kind, interval, startParts.value, endKey.value);
    }
  }

  /**
   * A repeating seed whose end date is absent, empty, or a `full-date` string
   * with month 01..12 and day 01..31 never occurs after the horizon,
   * 2025-12-31.
   */
  lemma OccurrencesWithinHorizon(seed: EventForm)
    requires seed.repeat.kind != NoRepeat
    requires InFormatEndDate(seed.repeat.endDate)
    ensures forall dt | dt in OccurrenceDates(seed) :: KeyOf(dt) <= KeyOf(Date(2025, 12, 31))
  {
    EndKeyWithinHorizon(seed);
    OccurrencesAscendWithinEnd(seed);
  }

  /** A daily or weekly rule emits its start date alone, when that date is not after the end, and nothing else. */
  lemma SingleDateKinds(kind: RepeatType, interval: int, start: Date, endKey: int)
    requires kind == Daily || kind == Weekly
    requires interval >= 1
    ensures |DatesFor(kind, interval, start, endKey)| <= 1
    ensures DatesFor(kind, interval, start, endKey) != [] <==> KeyOf(start) <= endKey
    ensures DatesFor(kind, interval, start, endKey) != [] ==> DatesFor(kind, interval, start, endKey)[0] == start
  {
  }

  /** A repeating rule whose start is a real calendar date not after the end emits first on that date. */
  lemma DatesForStartAtSeed(kind: RepeatType, interval: int, start: Date, endKey: int)
    requires kind != NoRepeat && interval >= 1
    requires ValidDate(start) && KeyOf(start) <= endKey
    ensures |DatesFor(kind, interval, start, endKey)| >= 1 && DatesFor(kind, interval, start, endKey)[0] == start
  {
    DaysInMonthIsMonthLength(start.y, start.m);
    if kind == Monthly {
      MonthlyStartsAtSeed(start.y, start.m, start.d, interval, endKey);
    } else if kind == Yearly {
      SeedYearEmits(start);
      YearlyStartsAtSeed(start.y, start.m, start.d, interval, endKey, YearlyRuleOf(start.y, start.m, start.d));
    }
  }

  /**
   * A repeating seed on a real calendar date that is not after the end emits
   * first on its own date, and when its text is the `full-date` form that
   * `toISO` writes, that first instance is the seed itself.
   */
  lemma SeedComesFirst(seed: EventForm, start: Date, endKey: int)
    requires seed.repeat.kind != NoRepeat
    requires ToDateParts(seed.date) == Some(start) && EndKeyOf(seed) == Some(endKey)
    requires ValidDate(start) && KeyOf(start) <= endKey
    ensures |OccurrenceDates(seed)| >= 1 && OccurrenceDates(seed)[0] == start
    ensures IsFullDateText(seed.date) && seed.date[0] != '0' ==> Instance(seed, start) == seed
  {
    var interval := EffectiveInterval(seed.repeat.interval);
    assert |OccurrenceDates(seed)| >= 1 && OccurrenceDates(seed)[0] == start by {
      assert OccurrenceDates(seed) == DatesFor(seed.repeat.kind, interval, start, endKey);
      DatesForStartAtSeed(seed.repeat.kind, interval, start, endKey);
    }
    if IsFullDateText(seed.date) && seed.date[0] != '0' {
      assert Instance(seed, start) == seed by {
        FullDateParts(seed.date);
        assert start == FullDateOf(seed.date);
        FullDateCanonical(seed.date);
      }
    }
  }

}
