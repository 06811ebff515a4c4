/**
 * The recurrence generator: from a seed event and its repeat rule, the list of
 * occurrence instances, each a copy of the seed with its own date.
 *
 * `GenerateRepeatEvents` follows the source step by step (a result list grown
 * by pushes, `while` loops over a nominal year and month). It is proved
 * against the functions `MonthlyFrom` and `YearlyFrom`, which walk the same
 * nominal dates recursively; the lemmas below state what those walks produce.
 */
module RepeatGeneration {
  import opened JsStrings
  import opened Calendar
  import opened EndDate

  /** The repeat rule's variants: `'none'`, `'daily'`, `'weekly'`, `'monthly'`, `'yearly'`. */
  datatype RepeatType = NoRepeat | Daily | Weekly | Monthly | Yearly

  /** `repeat`: the variant, the interval and the optional end date (`YYYY-MM-DD`). */
  datatype RepeatInfo = RepeatInfo(kind: RepeatType, interval: int, endDate: Option<string>)

  /** An event form: the seed of a recurrence, and each occurrence generated from it. */
  datatype EventForm = EventForm(
    title: string,
    date: string,
    startTime: string,
    endTime: string,
    description: string,
    location: string,
    category: string,
    repeat: RepeatInfo,
    notificationTime: int)

  /** `Math.max(1, repeat.interval || 1)`: an interval below 1 becomes 1. */
  function EffectiveInterval(interval: int): (r: int)
    ensures r >= 1
    ensures interval >= 1 ==> r == interval
    ensures interval < 1 ==> r == 1
  {
    if interval >= 1 then interval else 1
  }

  /**
   * `{ ...seed, date: toISO(y, m, d) }`: a copy of the seed that differs from
   * it in the date alone, which is the text `toISO` writes.
   */
  function Instance(seed: EventForm, dt: Date): (r: EventForm)
    ensures r.(date := seed.date) == seed
    ensures r.date == ToISO(dt.y, dt.m, dt.d)
  {
    seed.(date := DateToISO(dt))
  }

  /** `events` holds one instance of `seed` per date of `dates`, in order. */
  ghost predicate InstancesOf(seed: EventForm, dates: seq<Date>, events: seq<EventForm>)
  {
    |events| == |dates| && forall i | 0 <= i < |dates| :: events[i] == Instance(seed, dates[i])
  }

  /** Appending a date and its instance keeps the two lists in step. */
  lemma InstancesAppend(seed: EventForm, dates: seq<Date>, events: seq<EventForm>, dt: Date)
    requires InstancesOf(seed, dates, events)
    ensures InstancesOf(seed, dates + [dt], events + [Instance(seed, dt)])
  {
  }

  /** `pushIfInRange(y, m, d)`: append an instance dated (y, m, d) if its key is not after the end key. */
  function PushIfInRange(result: seq<EventForm>, seed: EventForm, y: int, m: int, d: int, endKey: int)
    : (r: seq<EventForm>)
    ensures ToDateKeyUTC(y, m, d) <= endKey ==> r == result + [Instance(seed, Date(y, m, d))]
    ensures ToDateKeyUTC(y, m, d) > endKey ==> r == result
  {
    if ToDateKeyUTC(y, m, d) <= endKey then result + [seed.(date := ToISO(y, m, d))] else result
  }

  // -----------------------------------------------------------------------
  // Nominal stepping
  // -----------------------------------------------------------------------

  /** The inner `while (m > 12) { m -= 12; y += 1; }`: carry whole years out of the month. */
  function CarryMonths(y: int, m: int): (r: (int, int))
    ensures 12 * r.0 + r.1 == 12 * y + m
    ensures r.1 <= 12 && r.0 >= y
    ensures m <= 12 ==> r == (y, m)
    ensures m >= 1 ==> r.1 >= 1
    decreases m
  {
    if m > 12 then CarryMonths(y + 1, m - 12) else (y, m)
  }

  /** `b` is reached from `a` by zero or more whole steps of `step`. */
  predicate OnStride(a: int, b: int, step: int)
    requires step >= 1
    decreases b - a
  {
    a == b || (a < b && OnStride(a + step, b, step))
  }

  /**
   * The monthly walk from the nominal month (y, m): each nominal month whose
   * key (with the seed's day `sd`) is not after `endKey` contributes
   * (y, m, sd) if the month has at least `sd` days, and nothing otherwise.
   */
  function MonthlyFrom(y: int, m: int, sd: int, interval: int, endKey: int): seq<Date>
    requires interval >= 1
    decreases endKey - ToDateKeyUTC(y, m, sd), 1
  {
    if ToDateKeyUTC(y, m, sd) > endKey then [] else MonthlyVisitFrom(y, m, sd, interval, endKey)
  }

  /** One pass of the monthly loop's body at a nominal month not after the end, then the rest of the walk. */
  function MonthlyVisitFrom(y: int, m: int, sd: int, interval: int, endKey: int): seq<Date>
    requires interval >= 1 && ToDateKeyUTC(y, m, sd) <= endKey
    decreases endKey - ToDateKeyUTC(y, m, sd), 0
  {
    var next := CarryMonths(y, m + interval);
    KeyIncreasesWithMonth(y, m, next.0, next.1, sd);
    (if sd <= GetDaysInMonth(y, m) then [Date(y, m, sd)] else [])
    + MonthlyFrom(next.0, next.1, sd, interval, endKey)
  }

  /** Which years a yearly seed emits in. */
  datatype YearlyRule =
    | LeapYearsOnly    // the seed is 29 February
    | CommonYearsOnly  // the seed is 28 February of a common year
    | WhereDayExists   // any other seed

  function YearlyRuleOf(sy: int, sm: int, sd: int): (rule: YearlyRule)
    ensures rule == LeapYearsOnly <==> sm == 2 && sd == 29
    ensures rule == CommonYearsOnly <==> sm == 2 && sd == 28 && !IsLeapYear(sy)
  {
    if sm == 2 && sd == 29 then LeapYearsOnly
    else if sm == 2 && sd == 28 && !IsLeapYear(sy) then CommonYearsOnly
    else WhereDayExists
  }

  predicate YearEmits(rule: YearlyRule, y: int, sm: int, sd: int)
  {
    match rule
    case LeapYearsOnly => IsLeapYear(y)
    case CommonYearsOnly => !IsLeapYear(y)
    case WhereDayExists => sd <= GetDaysInMonth(y, sm)
  }

  /**
   * The yearly walk from nominal year `y`: each year whose nominal date
   * (y, sm, sd) has a key not after `endKey` contributes that date when the
   * rule admits the year, and nothing otherwise.
   */
  function YearlyFrom(y: int, sm: int, sd: int, interval: int, endKey: int, rule: YearlyRule): seq<Date>
    requires interval >= 1
    decreases endKey - ToDateKeyUTC(y, sm, sd), 1
  {
    if ToDateKeyUTC(y, sm, sd) > endKey then [] else YearlyVisitFrom(y, sm, sd, interval, endKey, rule)
  }

  /** One pass of the yearly loop's body at a nominal year not after the end, then the rest of the walk. */
  function YearlyVisitFrom(y: int, sm: int, sd: int, interval: int, endKey: int, rule: YearlyRule): seq<Date>
    requires interval >= 1 && ToDateKeyUTC(y, sm, sd) <= endKey
    decreases endKey - ToDateKeyUTC(y, sm, sd), 0
  {
    KeyIncreasesWithMonth(y, sm, y + interval, sm, sd);
    (if YearEmits(rule, y, sm, sd) then [Date(y, sm, sd)] else [])
    + YearlyFrom(y + interval, sm, sd, interval, endKey, rule)
  }

  /**
   * The end key: the key of the clamped end date, None when it is NaN. With no
   * end date it is the horizon's key.
   */
  function EndKeyOf(seed: EventForm): (r: Option<int>)
    ensures seed.repeat.endDate.None? || seed.repeat.endDate == Some([]) ==> r == Some(KeyOf(Date(2025, 12, 31)))
  {
    HorizonParts();
    match ToDateParts(GetEffectiveEndDate(seed.repeat.endDate))
    case Some(e) => Some(KeyOf(e))
    case None => None
  }

  /**
   * An end date in the ranges of the `full-date` format never yields an end
   * key after the horizon's: the string clamp is then a clamp on keys.
   */
  lemma EndKeyWithinHorizon(seed: EventForm)
    requires InFormatEndDate(seed.repeat.endDate)
    ensures EndKeyOf(seed).Some? && EndKeyOf(seed).value <= KeyOf(Date(2025, 12, 31))
  {
    var endDate, clamped := seed.repeat.endDate, GetEffectiveEndDate(seed.repeat.endDate);
    HorizonParts();
    if endDate.Some? && endDate.value != [] {
      ClampFullDate(endDate.value);
      FullDateParts(clamped);
      KeyNotAfterDay31(FullDateOf(clamped), 2025, 12);
    }
  }

  /**
   * The dates a repeating rule of kind `kind` emits from the start date
   * `start` up to the end key: the monthly or yearly walk, and for daily and
   * weekly rules only the start date itself.
   */
  function DatesFor(kind: RepeatType, interval: int, start: Date, endKey: int): seq<Date>
    requires kind != NoRepeat && interval >= 1
  {
    match kind
    case Monthly => MonthlyFrom(start.y, start.m, start.d, interval, endKey)
    case Yearly => YearlyFrom(start.y, start.m, start.d, interval, endKey, YearlyRuleOf(start.y, start.m, start.d))
    case _ => if KeyOf(start) <= endKey then [start] else []
  }

  /**
   * The dates `generateRepeatEvents` emits for a repeating seed. A seed date
   * or end date with a NaN part makes every key NaN and every comparison
   * false, so nothing is emitted.
   */
  function OccurrenceDates(seed: EventForm): seq<Date>
    requires seed.repeat.kind != NoRepeat
  {
    match (ToDateParts(seed.date), EndKeyOf(seed))
    case (Some(s), Some(endKey)) => DatesFor(seed.repeat.kind, EffectiveInterval(seed.repeat.interval), s, endKey)
    case _ => []
  }

  /** One step of the monthly walk from a nominal month that is not after the end. */
  lemma MonthlyStep(y: int, m: int, sd: int, interval: int, endKey: int)
    requires interval >= 1 && ToDateKeyUTC(y, m, sd) <= endKey
    ensures var next := CarryMonths(y, m + interval);
      && ToDateKeyUTC(y, m, sd) < ToDateKeyUTC(next.0, next.1, sd)
      && MonthlyFrom(y, m, sd, interval, endKey)
         == (if sd <= GetDaysInMonth(y, m) then [Date(y, m, sd)] else [])
            + MonthlyFrom(next.0, next.1, sd, interval, endKey)
  {
    var next := CarryMonths(y, m + interval);
    KeyIncreasesWithMonth(y, m, next.0, next.1, sd);
  }

  /** One step of the yearly walk from a nominal year that is not after the end. */
  lemma YearlyStep(y: int, sm: int, sd: int, interval: int, endKey: int, rule: YearlyRule)
    requires interval >= 1 && ToDateKeyUTC(y, sm, sd) <= endKey
    ensures ToDateKeyUTC(y, sm, sd) < ToDateKeyUTC(y + interval, sm, sd)
    ensures YearlyFrom(y, sm, sd, interval, endKey, rule)
            == (if YearEmits(rule, y, sm, sd) then [Date(y, sm, sd)] else [])
               + YearlyFrom(y + interval, sm, sd, interval, endKey, rule)
  {
    KeyIncreasesWithMonth(y, sm, y + interval, sm, sd);
  }

  /** The monthly loop's invariant survives one iteration. */
  lemma MonthlyAdvance(total: seq<Date>, done: seq<Date>, y: int, m: int, sd: int, interval: int, endKey: int)
    requires interval >= 1 && ToDateKeyUTC(y, m, sd) <= endKey
    requires done + MonthlyFrom(y, m, sd, interval, endKey) == total
    ensures var next := CarryMonths(y, m + interval);
      && ToDateKeyUTC(y, m, sd) < ToDateKeyUTC(next.0, next.1, sd)
      && (done + (if sd <= GetDaysInMonth(y, m) then [Date(y, m, sd)] else []))
         + MonthlyFrom(next.0, next.1, sd, interval, endKey) == total
  {
    MonthlyStep(y, m, sd, interval, endKey);
    var next := CarryMonths(y, m + interval);
    var here := if sd <= GetDaysInMonth(y, m) then [Date(y, m, sd)] else [];
    var rest := MonthlyFrom(next.0, next.1, sd, interval, endKey);
    assert done + (here + rest) == (done + here) + rest;
  }

  /** The yearly loop's invariant survives one iteration. */
  lemma YearlyAdvance(total: seq<Date>, done: seq<Date>, y: int, sm: int, sd: int, interval: int, endKey: int,
                      rule: YearlyRule)
    requires interval >= 1 && ToDateKeyUTC(y, sm, sd) <= endKey
    requires done + YearlyFrom(y, sm, sd, interval, endKey, rule) == total
    ensures ToDateKeyUTC(y, sm, sd) < ToDateKeyUTC(y + interval, sm, sd)
    ensures (done + (if YearEmits(rule, y, sm, sd) then [Date(y, sm, sd)] else []))
            + YearlyFrom(y + interval, sm, sd, interval, endKey, rule) == total
  {
    YearlyStep(y, sm, sd, interval, endKey, rule);
    var here := if YearEmits(rule, y, sm, sd) then [Date(y, sm, sd)] else [];
    var rest := YearlyFrom(y + interval, sm, sd, interval, endKey, rule);
    assert done + (here + rest) == (done + here) + rest;
  }

  // -----------------------------------------------------------------------
  // The generator
  // -----------------------------------------------------------------------

  /** `generateRepeatEvents(seed)`. */
  method GenerateRepeatEvents(seed: EventForm) returns (result: seq<EventForm>)
    ensures seed.repeat.kind == NoRepeat ==> result == [seed]
    ensures seed.repeat.kind != NoRepeat ==> InstancesOf(seed, OccurrenceDates(seed), result)
  {
    var repeat := seed.repeat;
    var interval := EffectiveInterval(repeat.interval);
    var startParts := ToDateParts(seed.date);
    var effectiveEnd := GetEffectiveEndDate(repeat.endDate);
    var endParts := ToDateParts(effectiveEnd);
    result := [];

    if repeat.kind == NoRepeat {
      result := result + [seed];
      return;
    }
    if startParts.None? || endParts.None? {
      // NaN keys: no comparison succeeds, so nothing is pushed and no loop runs.
      assert OccurrenceDates(seed) == [];
      return;
    }
    var endKey := ToDateKeyUTC(endParts.value.y, endParts.value.m, endParts.value.d);
    assert OccurrenceDates(seed) == DatesFor(repeat.kind, interval, startParts.value, endKey);
    result := InstancesFor(seed, repeat.kind, interval, startParts.value, endKey);
  }

  /** The branches of `generateRepeatEvents` for a repeating rule, once the keys are numbers. */
  method InstancesFor(seed: EventForm, kind: RepeatType, interval: int, start: Date, endKey: int)
    returns (result: seq<EventForm>)
    requires kind != NoRepeat && interval >= 1
    ensures InstancesOf(seed, DatesFor(kind, interval, start, endKey), result)
  {
    var sy, sm, sd := start.y, start.m, start.d;
    if kind == Daily || kind == Weekly {
      // Only the seed date; no stepping by days or weeks.
      result := PushIfInRange([], seed, sy, sm, sd, endKey);
      assert DatesFor(kind, interval, start, endKey) == if KeyOf(start) <= endKey then [start] else [];
    } else if kind == Monthly {
      result := MonthlyInstances(seed, sy, sm, sd, interval, endKey);
      assert DatesFor(kind, interval, start, endKey) == MonthlyFrom(sy, sm, sd, interval, endKey);
    } else {
      result := YearlyInstances(seed, sy, sm, sd, interval, endKey);
      assert DatesFor(kind, interval, start, endKey)
          == YearlyFrom(sy, sm, sd, interval, endKey, YearlyRuleOf(sy, sm, sd));
    }
  }

  /** The `monthly` branch: step the nominal month by `interval`, pushing where the seed's day exists. */
  method MonthlyInstances(seed: EventForm, sy: int, sm: int, sd: int, interval: int, endKey: int)
    returns (result: seq<EventForm>)
    requires interval >= 1
    ensures InstancesOf(seed, MonthlyFrom(sy, sm, sd, interval, endKey), result)
  {
    result := [];
    var y, m := sy, sm;
    ghost var total := MonthlyFrom(sy, sm, sd, interval, endKey);
    ghost var done: seq<Date> := [];
    while ToDateKeyUTC(y, m, sd) <= endKey
      invariant done + MonthlyFrom(y, m, sd, interval, endKey) == total
      invariant InstancesOf(seed, done, result)
      decreases endKey - ToDateKeyUTC(y, m, sd)
    {
      MonthlyAdvance(total, done, y, m, sd, interval, endKey);
      result := MonthlyVisit(result, seed, y, m, sd, endKey);
      done := done + (if sd <= GetDaysInMonth(y, m) then [Date(y, m, sd)] else []);
      y, m := CarryYears(y, m + interval);
    }
  }

  /** One pass of the monthly loop's body at the nominal month (y, m): push (y, m, sd) if the month has that day. */
  method MonthlyVisit(result: seq<EventForm>, seed: EventForm, y: int, m: int, sd: int, endKey: int)
    returns (r: seq<EventForm>)
    requires ToDateKeyUTC(y, m, sd) <= endKey
    ensures sd <= GetDaysInMonth(y, m) ==> r == result + [Instance(seed, Date(y, m, sd))]
    ensures sd > GetDaysInMonth(y, m) ==> r == result
  {
    r := result;
    var dim := GetDaysInMonth(y, m);
    if sd <= dim {
      r := PushIfInRange(r, seed, y, m, sd, endKey);
    }
  }

  /** The inner `while (m > 12) { m -= 12; y += 1; }` of the monthly loop. */
  method CarryYears(y0: int, m0: int) returns (y: int, m: int)
    ensures (y, m) == CarryMonths(y0, m0)
  {
    y, m := y0, m0;
    while m > 12
      invariant CarryMonths(y, m) == CarryMonths(y0, m0)
      decreases m
    {
      m := m - 12;
      y := y + 1;
    }
  }

  /** The `yearly` branch: step the nominal year by `interval`, pushing in the years the seed's rule admits. */
  method YearlyInstances(seed: EventForm, sy: int, sm: int, sd: int, interval: int, endKey: int)
    returns (result: seq<EventForm>)
    requires interval >= 1
    ensures InstancesOf(seed, YearlyFrom(sy, sm, sd, interval, endKey, YearlyRuleOf(sy, sm, sd)), result)
  {
    result := [];
    var seedIsFeb29 := sm == 2 && sd == 29;
    var seedIsCommonFeb28 := sm == 2 && sd == 28 && !IsLeapYear(sy);
    ghost var rule := YearlyRuleOf(sy, sm, sd);
    var y := sy;
    ghost var total := YearlyFrom(sy, sm, sd, interval, endKey, rule);
    ghost var done: seq<Date> := [];
    while ToDateKeyUTC(y, sm, sd) <= endKey
      invariant done + YearlyFrom(y, sm, sd, interval, endKey, rule) == total
      invariant InstancesOf(seed, done, result)
      decreases endKey - ToDateKeyUTC(y, sm, sd)
    {
      YearlyAdvance(total, done, y, sm, sd, interval, endKey, rule);
      result := YearlyVisit(result, seed, y, sm, sd, endKey, seedIsFeb29, seedIsCommonFeb28, rule);
      done := done + (if YearEmits(rule, y, sm, sd) then [Date(y, sm, sd)] else []);
      y := y + interval;
    }
  }

  /**
   * One pass of the yearly loop's body in year `y`: push (y, 2, 29) in leap
   * years for a 29 February seed, (y, 2, 28) in common years for a common-year
   * 28 February seed, and otherwise (y, sm, sd) where that day exists.
   */
  method YearlyVisit(result: seq<EventForm>, seed: EventForm, y: int, sm: int, sd: int, endKey: int,
                     seedIsFeb29: bool, seedIsCommonFeb28: bool, ghost rule: YearlyRule)
    returns (r: seq<EventForm>)
    requires ToDateKeyUTC(y, sm, sd) <= endKey
    requires seedIsFeb29 <==> rule == LeapYearsOnly
    requires seedIsFeb29 ==> sm == 2 && sd == 29
    requires seedIsCommonFeb28 <==> rule == CommonYearsOnly
    requires seedIsCommonFeb28 ==> sm == 2 && sd == 28
    ensures YearEmits(rule, y, sm, sd) ==> r == result + [Instance(seed, Date(y, sm, sd))]
    ensures !YearEmits(rule, y, sm, sd) ==> r == result
  {
    r := result;
    if seedIsFeb29 {
      if IsLeapYear(y) {
        r := PushIfInRange(r, seed, y, 2, 29, endKey);
      }
    } else if seedIsCommonFeb28 {
      if !IsLeapYear(y) {
        r := PushIfInRange(r, seed, y, 2, 28, endKey);
      }
    } else {
      var dim := GetDaysInMonth(y, sm);
      if sd <= dim {
        r := PushIfInRange(r, seed, y, sm, sd, endKey);
      }
    }
  }
}
