/**
 * Calendar arithmetic behind the recurrence generator: the Gregorian leap-year
 * rule, month lengths, the `Date.UTC` day key, and the conversions between
 * `YYYY-MM-DD` text and (year, month, day) parts.
 *
 * `Date.UTC(y, m - 1, d)` is modelled by the MakeDay arithmetic of ECMA-262
 * (section 21.4.1), counted in days rather than milliseconds: one day is a fixed
 * number of milliseconds, so every comparison of keys comes out the same. An
 * out-of-range month is carried into the year and an out-of-range day rolls
 * over into the neighbouring months, exactly as `Date.UTC` does.
 */
module Calendar {
  import opened JsStrings

  /** Year, month (1-based) and day, as the parts of a `YYYY-MM-DD` string. */
  datatype Date = Date(y: int, m: int, d: int)

  /** Lexicographic order on (year, month, day). */
  predicate DateLess(a: Date, b: Date)
  {
    a.y < b.y || (a.y == b.y && (a.m < b.m || (a.m == b.m && a.d < b.d)))
  }

  predicate DateLessEq(a: Date, b: Date)
  {
    a == b || DateLess(a, b)
  }

  // -----------------------------------------------------------------------
  // Leap years and month lengths
  // -----------------------------------------------------------------------

  /**
   * The Gregorian rule of Appendix C of RFC 3339: a leap year is a multiple of
   * 4, and a multiple of 100 is a leap year exactly when it is a multiple of
   * 400. JavaScript's `%` truncates toward zero and Dafny's is Euclidean,
   * but both are zero on exactly the multiples, so the divisibility tests
   * agree for negative years too.
   */
  function IsLeapYear(year: int): (leap: bool)
    ensures leap ==> year % 4 == 0
    ensures year % 4 == 0 && year % 100 != 0 ==> leap
    ensures year % 100 == 0 ==> (leap <==> year % 400 == 0)
  {
    DivisibleChain(year);
    (year % 4 == 0 && year % 100 != 0) || year % 400 == 0
  }

  /** Length of month `month` (1..12) of `year` in the Gregorian calendar. */
  function MonthLength(year: int, month: int): int
    requires 1 <= month <= 12
  {
    if month == 2 then (if IsLeapYear(year) then 29 else 28)
    else if month == 4 || month == 6 || month == 9 || month == 11 then 30
    else 31
  }

  /** Days in the months of `year` before the 0-based month `mn`. */
  function DaysBeforeMonth(year: int, mn: int): int
    requires 0 <= mn < 12
  {
    var common :=
      if mn < 6 then
        (if mn == 0 then 0 else if mn == 1 then 31 else if mn == 2 then 59
         else if mn == 3 then 90 else if mn == 4 then 120 else 151)
      else
        (if mn == 6 then 181 else if mn == 7 then 212 else if mn == 8 then 243
         else if mn == 9 then 273 else if mn == 10 then 304 else 334);
    common + (if mn >= 2 && IsLeapYear(year) then 1 else 0)
  }

  // -----------------------------------------------------------------------
  // Day keys (`Date.UTC` in days)
  // -----------------------------------------------------------------------

  /** Day number of 1 January of year `y`, counted from 1 January 1970. */
  function DayFromYear(y: int): int
  {
    365 * (y - 1970) + (y - 1969) / 4 - (y - 1901) / 100 + (y - 1601) / 400
  }

  /** ECMA-262 MakeDay: the 0-based `month` is carried into the year, then `date - 1` days are added. */
  function MakeDay(year: int, month: int, date: int): int
  {
    var ym := year + month / 12;
    var mn := month % 12;
    DayFromYear(ym) + DaysBeforeMonth(ym, mn) + date - 1
  }

  /**
   * `toDateKeyUTC(y, m, d)`, i.e. `Date.UTC(y, m - 1, d)` counted in days: the
   * first day of the month with running index 12 * y + m, plus `d - 1` days.
   * KeyIsMakeDay shows this is MakeDay(y, m - 1, d).
   */
  function ToDateKeyUTC(y: int, m: int, d: int): int
  {
    MonthStart(12 * y + m) + d - 1
  }

  function KeyOf(dt: Date): int
  {
    ToDateKeyUTC(dt.y, dt.m, dt.d)
  }

  /** Year of the month with running index `i` = 12 * year + month. */
  function YearOf(i: int): int { (i - 1) / 12 }

  /** Month (1..12) of the month with running index `i` = 12 * year + month. */
  function MonthOf(i: int): (m: int)
    ensures 1 <= m <= 12
  {
    (i - 1) % 12 + 1
  }

  /** Running index of January 1970, the month whose first day has key 0. */
  const EpochMonth: int := 12 * 1970 + 1

  /**
   * One step of the running month index. MonthStart steps by this named
   * constant rather than a literal, so the verifier does not unfold the key
   * of a concrete date month by month back to 1970.
   */
  const OneMonth: int := 1

  /**
   * Day key of the first day of the month with running index `i`: month
   * lengths added up from January 1970 forwards, or taken away backwards.
   * MonthStartByYear shows this is the year-start-plus-month-table sum that
   * MakeDay computes.
   */
  function MonthStart(i: int): int
    decreases if i >= EpochMonth then i - EpochMonth else EpochMonth - i
  {
    if i == EpochMonth then 0
    else if i > EpochMonth then MonthStart(i - OneMonth) + LengthOfMonthIndex(i - OneMonth)
    else MonthStart(i + OneMonth) - LengthOfMonthIndex(i)
  }

  /** Length of the month with running index `i`. */
  function LengthOfMonthIndex(i: int): (n: int)
    ensures 28 <= n <= 31
  {
    MonthLength(YearOf(i), MonthOf(i))
  }

  /**
   * `getDaysInMonth(year, month)`, i.e. the day of month of
   * `Date.UTC(year, month, 0)`: the last day of month `month`, where a month
   * outside 1..12 is carried into the year first.
   */
  function GetDaysInMonth(year: int, month: int): (n: int)
    ensures 28 <= n <= 31
  {
    LengthOfMonthIndex(12 * year + month)
  }

  /**
   * For a month in 1..12, `getDaysInMonth` is the Gregorian month length; for
   * any month it is 29 exactly when the month, once carried into the year, is
   * February of a leap year.
   */
  lemma DaysInMonthIsMonthLength(year: int, month: int)
    ensures 1 <= month <= 12 ==> GetDaysInMonth(year, month) == MonthLength(year, month)
    ensures GetDaysInMonth(year, month) == 29 <==>
      MonthOf(12 * year + month) == 2 && IsLeapYear(YearOf(12 * year + month))
  {
    var i := 12 * year + month;
    if 1 <= month <= 12 {
      assert i - 1 == 12 * year + (month - 1);
      assert YearOf(i) == year && MonthOf(i) == month;
    }
  }

  /** Moving from year `y - 1` to `y` adds one leap day to the four-year count exactly when 4 divides `y`. */
  lemma Every4thYear(y: int)
    ensures (y - 1968) / 4 - (y - 1969) / 4 == (if y % 4 == 0 then 1 else 0)
  {
    var q, r := (y - 1969) / 4, (y - 1969) % 4;
    assert y == 4 * (q + 492) + (r + 1);
    if r == 3 {
      assert y - 1968 == 4 * (q + 1);
    } else {
      assert y - 1968 == 4 * q + (r + 1);
    }
  }

  /** The same for the hundred-year count. */
  lemma Every100thYear(y: int)
    ensures (y - 1900) / 100 - (y - 1901) / 100 == (if y % 100 == 0 then 1 else 0)
  {
    var q, r := (y - 1901) / 100, (y - 1901) % 100;
    assert y == 100 * (q + 19) + (r + 1);
    if r == 99 {
      assert y - 1900 == 100 * (q + 1);
    } else {
      assert y - 1900 == 100 * q + (r + 1);
    }
  }

  /** The same for the four-hundred-year count. */
  lemma Every400thYear(y: int)
    ensures (y - 1600) / 400 - (y - 1601) / 400 == (if y % 400 == 0 then 1 else 0)
  {
    var q, r := (y - 1601) / 400, (y - 1601) % 400;
    assert y == 400 * (q + 4) + (r + 1);
    if r == 399 {
      assert y - 1600 == 400 * (q + 1);
    } else {
      assert y - 1600 == 400 * q + (r + 1);
    }
  }

  /** Between 1 January of `y` and of `y + 1` the leap-day count grows by one exactly in leap years. */
  lemma LeapDayStep(y: int)
    ensures ((y - 1968) / 4 - (y - 1969) / 4) - ((y - 1900) / 100 - (y - 1901) / 100)
            + ((y - 1600) / 400 - (y - 1601) / 400) == (if IsLeapYear(y) then 1 else 0)
  {
    Every4thYear(y);
    Every100thYear(y);
    Every400thYear(y);
    DivisibleChain(y);
  }

  /** A multiple of 400 is a multiple of 100, and a multiple of 100 is a multiple of 4. */
  lemma DivisibleChain(y: int)
    ensures y % 400 == 0 ==> y % 100 == 0
    ensures y % 100 == 0 ==> y % 4 == 0
  {
    if y % 400 == 0 {
      MultipleOf400(y);
    }
    if y % 100 == 0 {
      MultipleOf100(y);
    }
  }

  lemma MultipleOf400(y: int)
    requires y % 400 == 0
    ensures y % 100 == 0
  {
    var k := y / 400;
    assert y == 400 * k;
    assert y / 100 == 4 * k;
  }

  lemma MultipleOf100(y: int)
    requires y % 100 == 0
    ensures y % 4 == 0
  {
    var k := y / 100;
    assert y == 100 * k;
    assert y / 4 == 25 * k;
  }

  /** The length of a year is 366 days exactly in leap years. */
  lemma DayFromYearStep(y: int)
    ensures DayFromYear(y + 1) == DayFromYear(y) + (if IsLeapYear(y) then 366 else 365)
  {
    LeapDayStep(y);
    assert DayFromYear(y + 1) - DayFromYear(y)
      == 365 + ((y - 1968) / 4 - (y - 1969) / 4) - ((y - 1900) / 100 - (y - 1901) / 100)
             + ((y - 1600) / 400 - (y - 1601) / 400);
  }

  /** The first of the month with running index `i` as MakeDay sums it: the year's start plus the months before. */
  function MonthStartFromYear(i: int): int
  {
    DayFromYear(YearOf(i)) + DaysBeforeMonth(YearOf(i), MonthOf(i) - 1)
  }

  /** 1 January 1970 has key 0 counted either way. */
  lemma EpochMonthStart()
    ensures MonthStart(EpochMonth) == 0 && MonthStartFromYear(EpochMonth) == 0
  {
    assert YearOf(EpochMonth) == 1970 && MonthOf(EpochMonth) == 1;
  }

  /** Both ways of counting the first of a month agree, from January 1970 onwards. */
  lemma {:induction false} MonthStartByYearForward(i: int)
    requires i >= EpochMonth
    ensures MonthStart(i) == MonthStartFromYear(i)
    decreases i - EpochMonth
  {
    if i == EpochMonth {
      EpochMonthStart();
    } else {
      MonthStartByYearForward(i - 1);
      MonthStartFromYearStepBack(i);
    }
  }

  /** Both ways of counting the first of a month agree, up to January 1970. */
  lemma {:induction false} MonthStartByYearBackward(i: int)
    requires i <= EpochMonth
    ensures MonthStart(i) == MonthStartFromYear(i)
    decreases EpochMonth - i
  {
    if i == EpochMonth {
      EpochMonthStart();
    } else {
      assert MonthStart(i) == MonthStart(i + 1) - LengthOfMonthIndex(i);
      MonthStartByYearBackward(i + 1);
      MonthStartFromYearStep(i);
    }
  }

  /** Both ways of counting the first of a month agree. */
  lemma MonthStartByYear(i: int)
    ensures MonthStart(i) == MonthStartFromYear(i)
  {
    if i >= EpochMonth {
      MonthStartByYearForward(i);
    } else {
      MonthStartByYearBackward(i);
    }
  }

  /** Counted by years, the first of the next month is one month length after the first of this one. */
  lemma MonthStartFromYearStep(i: int)
    ensures MonthStartFromYear(i + 1) == MonthStartFromYear(i) + LengthOfMonthIndex(i)
  {
    var y, mn := (i - 1) / 12, (i - 1) % 12;
    assert i - 1 == 12 * y + mn && 0 <= mn < 12;
    assert YearOf(i) == y && MonthOf(i) == mn + 1;
    if mn < 11 {
      assert i == 12 * y + (mn + 1);
      assert YearOf(i + 1) == y && MonthOf(i + 1) == mn + 2;
    } else {
      assert i == 12 * (y + 1) + 0;
      assert YearOf(i + 1) == y + 1 && MonthOf(i + 1) == 1;
      DayFromYearStep(y);
    }
  }

  /** MonthStartFromYearStep, read from the later month. */
  lemma MonthStartFromYearStepBack(i: int)
    ensures MonthStartFromYear(i) == MonthStartFromYear(i - 1) + LengthOfMonthIndex(i - 1)
  {
    MonthStartFromYearStep(i - 1);
  }

  /** The day key is ECMA-262 MakeDay applied to the 0-based month `m - 1`. */
  lemma KeyIsMakeDay(y: int, m: int, d: int)
    ensures ToDateKeyUTC(y, m, d) == MakeDay(y, m - 1, d)
  {
    var i := 12 * y + m;
    MonthStartByYear(i);
    assert i - 1 == 12 * y + (m - 1);
    assert (i - 1) / 12 == y + (m - 1) / 12 && (i - 1) % 12 == (m - 1) % 12 by {
      var q, r := (m - 1) / 12, (m - 1) % 12;
      assert m - 1 == 12 * q + r && 0 <= r < 12;
      assert i - 1 == 12 * (y + q) + r;
    }
  }

  /** The first of the next month lies exactly one month length after the first of this one. */
  lemma MonthStartStep(i: int)
    ensures MonthStart(i + 1) == MonthStart(i) + LengthOfMonthIndex(i)
  {
  }

  /** A later month starts at least a whole month length after an earlier one. */
  lemma {:induction false} MonthStartMonotone(i: int, j: int)
    requires i < j
    ensures MonthStart(i) + LengthOfMonthIndex(i) <= MonthStart(j)
    decreases j - i
  {
    MonthStartStep(i);
    if i + 1 < j {
      MonthStartMonotone(i + 1, j);
    }
  }

  /**
   * `Date.UTC(year, month, 0)` is the last day of month `month`, so the day of
   * month it yields is the month's length: the day `GetDaysInMonth` of the month
   * is one day before the first of the next month.
   */
  lemma LastDayOfMonth(year: int, month: int)
    ensures ToDateKeyUTC(year, month, GetDaysInMonth(year, month)) + 1 == ToDateKeyUTC(year, month + 1, 1)
    ensures ToDateKeyUTC(year, month + 1, 0) == ToDateKeyUTC(year, month, GetDaysInMonth(year, month))
  {
    MonthStartStep(12 * year + month);
  }

  /** With the day fixed, a later month (by running index) has a strictly larger key. */
  lemma KeyIncreasesWithMonth(y1: int, m1: int, y2: int, m2: int, d: int)
    requires 12 * y1 + m1 < 12 * y2 + m2
    ensures ToDateKeyUTC(y1, m1, d) < ToDateKeyUTC(y2, m2, d)
  {
    var i1, i2 := 12 * y1 + m1, 12 * y2 + m2;
    MonthStartMonotone(i1, i2);
    assert MonthStart(i1) < MonthStart(i2);
    assert ToDateKeyUTC(y1, m1, d) == MonthStart(i1) + d - 1;
    assert ToDateKeyUTC(y2, m2, d) == MonthStart(i2) + d - 1;
  }

  /** A real calendar date: month 1..12 and a day that exists in that month. */
  predicate ValidDate(dt: Date)
  {
    1 <= dt.m <= 12 && 1 <= dt.d <= MonthLength(dt.y, dt.m)
  }

  /**
   * A date that is lexicographically after a real calendar date has a larger key,
   * as long as its month is in 1..12 and its day is positive (the day may
   * overflow its month).
   */
  lemma KeyAfterValidDate(b: Date, a: Date)
    requires ValidDate(b) && 1 <= a.m <= 12 && 1 <= a.d
    requires DateLess(b, a)
    ensures KeyOf(b) < KeyOf(a)
  {
    var ib, ia := 12 * b.y + b.m, 12 * a.y + a.m;
    assert KeyOf(b) == MonthStart(ib) + b.d - 1;
    assert KeyOf(a) == MonthStart(ia) + a.d - 1;
    DaysInMonthIsMonthLength(b.y, b.m);
    assert LengthOfMonthIndex(ib) == MonthLength(b.y, b.m);
    assert ib <= ia;
    if ib < ia {
      MonthStartMonotone(ib, ia);
    } else {
      assert b.y == a.y && b.m == a.m && b.d < a.d;
    }
  }

  /** On real calendar dates the day key orders exactly as the dates do. */
  lemma KeyOrderIsDateOrder(a: Date, b: Date)
    requires ValidDate(a) && ValidDate(b)
    ensures KeyOf(a) < KeyOf(b) <==> DateLess(a, b)
    ensures KeyOf(a) == KeyOf(b) <==> a == b
  {
    if DateLess(a, b) {
      KeyAfterValidDate(a, b);
    } else if DateLess(b, a) {
      KeyAfterValidDate(b, a);
    }
  }

  // -----------------------------------------------------------------------
  // Text form
  // -----------------------------------------------------------------------

  /**
   * `toISO(y, m, d)`: the year as `String(y)`, month and day zero-padded to two
   * digits. `toDateParts` reads non-negative parts back unchanged, and a
   * four-digit year with month and day below 100 gives a `full-date` string.
   * Every branch is the same text; the branches only scope the two helper
   * lemmas to the inputs they are about.
   */
  function ToISO(y: int, m: int, d: int): (s: string)
    ensures y >= 0 && m >= 0 && d >= 0 ==> ToDateParts(s) == Some(Date(y, m, d))
    ensures 1000 <= y <= 9999 && 1 <= m <= 99 && 1 <= d <= 99 ==> IsFullDateText(s)
  {
    if y >= 0 && m >= 0 && d >= 0 then
      ISOPartsReadBack(y, m, d);
      if 1000 <= y <= 9999 && 1 <= m <= 99 && 1 <= d <= 99 then
        ISOPiecesFullDate(y, m, d);
        ISOText(y, m, d)
      else ISOText(y, m, d)
    else ISOText(y, m, d)
  }

  /** The text `toISO` builds: `String(y)`, then month and day padded to two digits, hyphen-separated. */
  function ISOText(y: int, m: int, d: int): string
  {
    IntToString(y) + "-" + PadStart2(IntToString(m)) + "-" + PadStart2(IntToString(d))
  }

  /** Helper for ToISO: `toDateParts` reads the written parts back. */
  lemma ISOPartsReadBack(y: nat, m: nat, d: nat)
    ensures ToDateParts(ISOText(y, m, d)) == Some(Date(y, m, d))
  {
    var a, b, c := NatToString(y), PadStart2(NatToString(m)), PadStart2(NatToString(d));
    NatToStringValue(y);
    PaddedValue(m);
    PaddedValue(d);
    DigitsHaveNoHyphen(a);
    DigitsHaveNoHyphen(b);
    DigitsHaveNoHyphen(c);
    SplitThree(a, b, c);
  }

  /** Helper for ToISO: a four-digit year with month and day below 100 is written in `full-date` form. */
  lemma ISOPiecesFullDate(y: int, m: int, d: int)
    requires 1000 <= y <= 9999 && 1 <= m <= 99 && 1 <= d <= 99
    ensures IsFullDateText(ISOText(y, m, d))
  {
    var a, b, c := IntToString(y), PadStart2(IntToString(m)), PadStart2(IntToString(d));
    NatToStringValue(y);
    PaddedValue(m);
    PaddedValue(d);
    FourDigitYear(y);
    var s := ISOText(y, m, d);
    assert s == a + "-" + b + "-" + c;
    assert s[..4] == a && s[5..7] == b && s[8..] == c;
  }

  /** A year of four digits is written with four digits. */
  lemma FourDigitYear(y: int)
    requires 1000 <= y <= 9999
    ensures |IntToString(y)| == 4
  {
    var q := y / 10;
    assert 100 <= q <= 999;
    assert 10 <= q / 10 <= 99;
    assert 1 <= q / 10 / 10 <= 9;
    assert |NatToString(q / 10 / 10)| == 1;
    assert |NatToString(q / 10)| == 2;
    assert |NatToString(q)| == 3;
  }

  function DateToISO(dt: Date): string
  {
    ToISO(dt.y, dt.m, dt.d)
  }

  /**
   * `toDateParts(s)`: the first three `-`-separated pieces through `Number`.
   * None stands for a NaN part (a piece that is not a number, or a missing
   * piece); any such part makes every `Date.UTC` key built from the parts NaN.
   */
  function ToDateParts(s: string): (r: Option<Date>)
    ensures r.Some? ==> r.value.y >= 0 && r.value.m >= 0 && r.value.d >= 0
  {
    var parts := Split(s);
    if |parts| < 3 then None
    else
      match (Number(parts[0]), Number(parts[1]), Number(parts[2]))
      case (Some(y), Some(m), Some(d)) => Some(Date(y, m, d))
      case _ => None
  }

  /** The `full-date` form of section 5.6 of RFC 3339: `DDDD-DD-DD`. */
  predicate IsFullDateText(s: string)
  {
    |s| == 10 && s[4] == '-' && s[7] == '-'
    && AllDigits(s[..4]) && AllDigits(s[5..7]) && AllDigits(s[8..])
  }

  /** The parts of a `full-date` string. */
  function FullDateOf(s: string): Date
    requires IsFullDateText(s)
  {
    Date(DigitsValue(s[..4]), DigitsValue(s[5..7]), DigitsValue(s[8..]))
  }

  /** Month and day within the ranges the `full-date` format allows (01..12, 01..31). */
  predicate InFormatRange(dt: Date)
  {
    1 <= dt.m <= 12 && 1 <= dt.d <= 31
  }

  /**
   * A date within the format's ranges that is on or before the 31st of a
   * month (y, m) has a key no later than that 31st, even when its own day
   * overflows its month.
   */
  lemma KeyNotAfterDay31(a: Date, y: int, m: int)
    requires InFormatRange(a) && 1 <= m <= 12 && DateLessEq(a, Date(y, m, 31))
    ensures KeyOf(a) <= ToDateKeyUTC(y, m, 31)
  {
    var ia, ib := 12 * a.y + a.m, 12 * y + m;
    assert ia <= ib;
    if ia < ib {
      MonthStartMonotone(ia, ib);
    } else {
      assert a.y == y && a.m == m;
    }
  }

  lemma FullDatePieces(s: string)
    requires IsFullDateText(s)
    ensures s == s[..4] + "-" + s[5..7] + "-" + s[8..]
  {
  }

  /** `toDateParts` reads a `full-date` string as its three numbers. */
  lemma FullDateParts(s: string)
    requires IsFullDateText(s)
    ensures ToDateParts(s) == Some(FullDateOf(s))
  {
    FullDatePieces(s);
    DigitsHaveNoHyphen(s[..4]);
    DigitsHaveNoHyphen(s[5..7]);
    DigitsHaveNoHyphen(s[8..]);
    SplitThree(s[..4], s[5..7], s[8..]);
  }

  lemma TwoDigitsValue(s: string)
    requires |s| == 2 && AllDigits(s)
    ensures DigitsValue(s) == 10 * DigitValue(s[0]) + DigitValue(s[1])
  {
    var a := s[..1];
    assert a[..0] == [] && a[0] == s[0];
    assert DigitsValue(a) == DigitValue(s[0]);
  }

  lemma FourDigitsValue(s: string)
    requires |s| == 4 && AllDigits(s)
    ensures DigitsValue(s) == 1000 * DigitValue(s[0]) + 100 * DigitValue(s[1]) + 10 * DigitValue(s[2]) + DigitValue(s[3])
  {
    var a := s[..3];
    var b := a[..2];
    TwoDigitsValue(b);
    assert b[0] == s[0] && b[1] == s[1] && a[2] == s[2];
    assert DigitsValue(a) == DigitsValue(b) * 10 + DigitValue(s[2]);
  }

  /** The date a `full-date` string spells, digit by digit, and `toDateParts` reads it so. */
  lemma FullDateValue(s: string)
    requires IsFullDateText(s)
    ensures ToDateParts(s) == Some(FullDateOf(s))
    ensures FullDateOf(s) == Date(
      1000 * DigitValue(s[0]) + 100 * DigitValue(s[1]) + 10 * DigitValue(s[2]) + DigitValue(s[3]),
      10 * DigitValue(s[5]) + DigitValue(s[6]),
      10 * DigitValue(s[8]) + DigitValue(s[9]))
  {
    FullDateParts(s);
    FourDigitsValue(s[..4]);
    TwoDigitsValue(s[5..7]);
    TwoDigitsValue(s[8..]);
  }

  /** `toISO` writes a `full-date` string (year 1000 or later) back exactly. */
  lemma FullDateCanonical(s: string)
    requires IsFullDateText(s) && s[0] != '0'
    ensures DateToISO(FullDateOf(s)) == s
  {
    FullDatePieces(s);
    DigitsRoundTrip(s[..4]);
    TwoDigitsRoundTrip(s[5..7]);
    TwoDigitsRoundTrip(s[8..]);
  }

  /** On equal-length digit strings, string order is numeric order. */
  lemma {:induction false} DigitStringOrder(x: string, z: string)
    requires |x| == |z| && AllDigits(x) && AllDigits(z)
    ensures Less(x, z) <==> DigitsValue(x) < DigitsValue(z)
    ensures x == z <==> DigitsValue(x) == DigitsValue(z)
  {
    if x != [] {
      var n := |x| - 1;
      var px, pz := x[..n], z[..n];
      DigitStringOrder(px, pz);
      assert x == px + [x[n]] && z == pz + [z[n]];
      LessConcat(px, [x[n]], pz, [z[n]]);
      assert Less([x[n]], [z[n]]) == (x[n] < z[n]) by {
        assert [x[n]][1..] == [] && [z[n]][1..] == [];
      }
      assert DigitsValue(x) == DigitsValue(px) * 10 + DigitValue(x[n]);
      assert DigitsValue(z) == DigitsValue(pz) * 10 + DigitValue(z[n]);
    }
  }

  /**
   * For two `full-date` strings, JavaScript's string comparison agrees with the
   * lexicographic order of their (year, month, day) numbers, whether or not
   * those name a real calendar date.
   */
  lemma FullDateStringOrder(a: string, b: string)
    requires IsFullDateText(a) && IsFullDateText(b)
    ensures Less(a, b) <==> DateLess(FullDateOf(a), FullDateOf(b))
    ensures a == b <==> FullDateOf(a) == FullDateOf(b)
  {
    FullDatePieces(a);
    FullDatePieces(b);
    var a1, a2, a3 := a[..4], a[5..7], a[8..];
    var b1, b2, b3 := b[..4], b[5..7], b[8..];
    DigitStringOrder(a1, b1);
    DigitStringOrder(a2, b2);
    DigitStringOrder(a3, b3);
    assert a == a1 + ("-" + (a2 + ("-" + a3)));
    assert b == b1 + ("-" + (b2 + ("-" + b3)));
    LessConcat(a1, "-" + (a2 + ("-" + a3)), b1, "-" + (b2 + ("-" + b3)));
    LessConcat("-", a2 + ("-" + a3), "-", b2 + ("-" + b3));
    LessConcat(a2, "-" + a3, b2, "-" + b3);
    LessConcat("-", a3, "-", b3);
  }
}
