# Recurring events: occurrence generation and input validation

This project is a Dafny model of the recurrence core of a calendar application.
It has two parts.

- **The generator** (`src/utils/repeatGeneration.ts`). `generateRepeatEvents`
  expands a seed event with a repeat rule into its occurrence instances.
  - The rule has a variant: `none`, `daily`, `weekly`, `monthly` or `yearly`.
    It also has an interval and an optional end date.
  - The end date is first clamped to the system horizon `2025-12-31`. The
    clamp compares the text, not the date it names.
  - A monthly rule keeps the seed's day of month. It skips the months that do
    not have that day.
  - A yearly rule on 29 February emits only in leap years. A yearly rule on
    28 February of a common year emits only in common years. Any other yearly
    rule emits in every stepped year that has the seed's day.
  - Daily and weekly rules emit only the seed date itself.
- **The validators** (`src/utils/repeatValidation.ts`). They check a form's end
  date against its start date and the horizon, and its interval against
  1..999. Each returns an error message, or `null`.

## Layout

| file | module | contents |
|---|---|---|
| `js_strings.dfy` | `JsStrings` | the JavaScript string operations the code relies on: `<` on strings, `String(n)`, `padStart(2, '0')`, `Number`, `split('-')` |
| `calendar.dfy` | `Calendar` | leap years, month lengths, `Date.UTC` as a day count, `toISO` and `toDateParts` |
| `end_date.dfy` | `EndDate` | the horizon and the clamp |
| `repeat_generation.dfy` | `RepeatGeneration` | the data model and the generator |
| `occurrences.dfy` | `Occurrences` | what the generator emits: order, bounds, membership, first element |
| `generation_examples.dfy` | `GenerationExamples` | the generator's unit-test scenarios |
| `repeat_validation.dfy` | `RepeatValidation` | the two validators and how they relate to the generator |

## How the model works

- **Keys.** `Date.UTC(y, m - 1, d)` is counted in days rather than milliseconds.
  Every key is taken at UTC midnight, so the order of keys is unchanged.
  `Calendar.ToDateKeyUTC` adds up month lengths from January 1970.
  `Calendar.KeyIsMakeDay` proves that this is the `MakeDay` operation of the
  ECMAScript specification (ECMA-262). Out-of-range months and days roll over exactly as
  `Date.UTC` does. April 31 has the key of May 1.
- **NaN.** `toDateParts` can produce a NaN part, for example from a piece that
  is not a number. It is modelled as `None`. A NaN key makes every comparison
  false. So the generator pushes nothing and runs no loop, and the model
  returns early with no instances.
- **The generator.** `RepeatGeneration.GenerateRepeatEvents` keeps the source's
  form. It grows a result list by pushes. Its `while` loops step a nominal year
  and month, and the inner loop carries months into years. Each loop is proved
  against a recursive walk, `MonthlyFrom` or `YearlyFrom`, that visits the same
  nominal dates. Each loop body is factored into a helper method
  (`MonthlyVisit`, `YearlyVisit`, `CarryYears`) with its own contract.
- **`new Date(s)` in the validator.** It is modelled as the date-only string
  format `YYYY-MM-DD`, with month 01..12 and day 01..31. An accepted string has
  the key of its parts. A day past the end of its month rolls over into the
  next month.

### Where the tests and the code disagree

One unit test, `src/__tests__/unit/easy.repeatGeneration.spec.ts:98-123`,
disagrees with the code it tests.

- The test expects a yearly rule from `2025-02-28` with end date `2028-12-31`
  to emit 2025, 2026 and 2027.
- The code clamps that end date to `2025-12-31`, so it emits only
  `2025-02-28`.

The model follows the code:

- `GenerationExamples.YearlyCommonFeb28Example` proves the single occurrence.
- `GenerationExamples.YearlyCommonFeb28Walk` proves that the unclamped walk
  gives the test's three dates.

## Model

| member | source | states |
|---|---|---|
| `EndDate.ClampToSystemMaxEndDate` | src/utils/repeatGeneration.ts:53-56 | an absent or empty end date becomes `2025-12-31`; a non-empty one is kept exactly when it does not compare after the horizon, and is otherwise replaced by it; the result is never empty and never after the horizon |
| `EndDate.GetEffectiveEndDate` | src/utils/repeatGeneration.ts:63-65 | the effective end date is the clamp of the end date |
| `EndDate.ClampIdempotent` | src/utils/repeatGeneration.ts:53-56 | clamping a clamped end date changes nothing |
| `EndDate.ClampFullDate` | src/utils/repeatGeneration.ts:53-56 | for a `YYYY-MM-DD` end date the clamp is a `YYYY-MM-DD` string whose (year, month, day) digit triple is not lexicographically after (2025, 12, 31); it keeps the input exactly when the input's digit triple is not lexicographically after (2025, 12, 31), and otherwise gives the horizon |
| `EndDate.HorizonDate` | src/utils/repeatGeneration.ts:3 | the horizon string is a `YYYY-MM-DD` date spelling 2025-12-31, a real calendar date |
| `EndDate.HorizonParts` | src/utils/repeatGeneration.ts:3 | `toDateParts` reads the horizon as (2025, 12, 31) |
| `EndDate.ClampExamples` | src/__tests__/unit/easy.repeatEndClamp.spec.ts:9-19 | no end date and `2026-01-01` clamp to `2025-12-31`; `2025-12-15` is kept; with no end date the effective end is `2025-12-31` and `2025-06-30` is kept (as in easy.repeatEndDefault.spec.ts) |
| `EndDate.NewYearIsPastHorizon` | src/utils/repeatGeneration.ts:55 | `2026-01-01` compares after the horizon |
| `EndDate.MidDecemberIsWithinHorizon` | src/utils/repeatGeneration.ts:55 | `2025-12-15` does not compare after the horizon |
| `EndDate.JuneIsWithinHorizon` | src/utils/repeatGeneration.ts:55 | `2025-06-30` does not compare after the horizon |
| `JsStrings.Less` | src/utils/repeatGeneration.ts:55 | no string compares before itself, and a proper prefix compares before the longer string |
| `JsStrings.LessTrichotomy` | src/utils/repeatGeneration.ts:55 | for any two strings exactly one of before, equal, after holds |
| `JsStrings.LessConcat` | src/utils/repeatGeneration.ts:55 | comparing two strings with equal-length prefixes compares the prefixes first and the rests on a tie |
| `JsStrings.Number` | src/utils/repeatGeneration.ts:10 | `Number(v)` is a number exactly for a digit string, and 0 for the empty string |
| `JsStrings.NatToString` | src/utils/repeatGeneration.ts:23 | `String(n)` is a non-empty digit string without a leading zero |
| `JsStrings.IntToString` | src/utils/repeatGeneration.ts:23 | `String(n)` of a negative number is a minus sign and the digits of its magnitude |
| `JsStrings.PadStart2` | src/utils/repeatGeneration.ts:21-22 | `padStart(2, '0')` left-fills a shorter string with zeros to length 2 and keeps a longer one |
| `JsStrings.NatToStringValue` | src/utils/repeatGeneration.ts:23 | `Number(String(n)) == n` |
| `JsStrings.PaddedValue` | src/utils/repeatGeneration.ts:21-22 | a zero-padded month or day still reads back as its value |
| `JsStrings.LeadingZeroValue` | src/utils/repeatGeneration.ts:21-22 | a leading zero does not change a digit string's value |
| `JsStrings.NoLeadingZeroPositive` | src/utils/repeatGeneration.ts:23 | a digit string that does not start with 0 has a positive value |
| `JsStrings.DigitsRoundTrip` | src/utils/repeatGeneration.ts:10 | `String(Number(s)) == s` for a digit string with no leading zero |
| `JsStrings.TwoDigitsRoundTrip` | src/utils/repeatGeneration.ts:21-22 | `String(Number(s)).padStart(2, '0') == s` for every two-digit string |
| `JsStrings.Split` | src/utils/repeatGeneration.ts:10 | `split('-')` always yields at least one piece |
| `JsStrings.SplitNoHyphen` | src/utils/repeatGeneration.ts:10 | a string without a hyphen splits into itself |
| `JsStrings.SplitAtHyphen` | src/utils/repeatGeneration.ts:10 | splitting `a-rest` with `a` hyphen-free gives `a` and then the pieces of `rest` |
| `JsStrings.SplitThree` | src/utils/repeatGeneration.ts:10 | `a-b-c` with hyphen-free pieces splits into exactly `[a, b, c]` |
| `JsStrings.DigitsHaveNoHyphen` | src/utils/repeatGeneration.ts:10 | a digit string contains no hyphen |
| `Calendar.DaysInMonthIsMonthLength` | src/utils/repeatGeneration.ts:34-36 | `getDaysInMonth` is the Gregorian length of months 1..12, and is 29 exactly for February of a leap year (after carrying the month into the year) |
| `Calendar.GetDaysInMonth` | src/utils/repeatGeneration.ts:34-36 | every month has 28 to 31 days |
| `Calendar.LastDayOfMonth` | src/utils/repeatGeneration.ts:35 | day 0 of the next month is the last day of this month, and one day later is the next month's first day |
| `Calendar.DayFromYearStep` | src/utils/repeatGeneration.ts:27-29 | a year has 366 days exactly when `isLeapYear` holds, 365 otherwise |
| `Calendar.LeapDayStep` | src/utils/repeatGeneration.ts:27-29 | the count of leap days before 1 January grows by one across a year exactly when that year is a leap year |
| `Calendar.Every4thYear` | src/utils/repeatGeneration.ts:28 | the four-year count grows exactly at multiples of 4 |
| `Calendar.Every100thYear` | src/utils/repeatGeneration.ts:28 | the century count grows exactly at multiples of 100 |
| `Calendar.Every400thYear` | src/utils/repeatGeneration.ts:28 | the 400-year count grows exactly at multiples of 400 |
| `Calendar.IsLeapYear` | src/utils/repeatGeneration.ts:27-29 | every leap year is a multiple of 4; a multiple of 4 that is not a multiple of 100 is a leap year; a multiple of 100 is a leap year exactly when it is a multiple of 400 |
| `Calendar.DivisibleChain` | src/utils/repeatGeneration.ts:28 | helper for `IsLeapYear`: multiples of 400 are multiples of 100, which are multiples of 4 |
| `Calendar.MultipleOf400` | src/utils/repeatGeneration.ts:28 | helper for `DivisibleChain`: a multiple of 400 is a multiple of 100 |
| `Calendar.MultipleOf100` | src/utils/repeatGeneration.ts:28 | helper for `DivisibleChain`: a multiple of 100 is a multiple of 4 |
| `Calendar.KeyIsMakeDay` | src/utils/repeatGeneration.ts:15-17 | the key is `MakeDay(y, m - 1, d)`: the days to 1 January of the year plus the month table, with out-of-range months carried into the year |
| `Calendar.MonthStartByYear` | src/utils/repeatGeneration.ts:15-17 | the first day of every month, summed month by month from 1970, equals year start plus days before the month |
| `Calendar.MonthStartByYearForward` | src/utils/repeatGeneration.ts:15-17 | the same for months from January 1970 on |
| `Calendar.MonthStartByYearBackward` | src/utils/repeatGeneration.ts:15-17 | the same for months before January 1970 |
| `Calendar.EpochMonthStart` | src/utils/repeatGeneration.ts:15-17 | January 1970 starts at key 0 |
| `Calendar.MonthStartFromYearStep` | src/utils/repeatGeneration.ts:15-17 | by the year formula, each month starts its predecessor's length after it |
| `Calendar.MonthStartFromYearStepBack` | src/utils/repeatGeneration.ts:15-17 | the same step read backwards |
| `Calendar.MonthStartStep` | src/utils/repeatGeneration.ts:15-17 | the next month starts this month's length later |
| `Calendar.MonthStartMonotone` | src/utils/repeatGeneration.ts:15-17 | a later month starts after the whole of an earlier one |
| `Calendar.KeyIncreasesWithMonth` | src/utils/repeatGeneration.ts:106 | with the same day number, a later nominal month has a larger key, whatever the rollover |
| `Calendar.KeyAfterValidDate` | src/utils/repeatGeneration.ts:106 | a nominal date after a real calendar date has a larger key even when its day overflows its month |
| `Calendar.KeyOrderIsDateOrder` | src/utils/repeatGeneration.ts:15-17 | on real calendar dates, key order is calendar order and equal keys mean equal dates |
| `Calendar.LengthOfMonthIndex` | src/utils/repeatGeneration.ts:34-36 | a month has 28 to 31 days |
| `Calendar.MonthOf` | src/utils/repeatGeneration.ts:34-36 | the month that `Date.UTC` lands in, once an out-of-range month is carried into the year, is in 1..12 |
| `Calendar.ToDateParts` | src/utils/repeatGeneration.ts:9-12 | parsed parts are never negative; NaN parts are None |
| `Calendar.ToISO` | src/utils/repeatGeneration.ts:20-24 | `toDateParts(toISO(y, m, d)) == (y, m, d)` for non-negative parts, and a four-digit year with month and day from 1 to 99 is written as a `YYYY-MM-DD` string |
| `Calendar.ISOPartsReadBack` | src/utils/repeatGeneration.ts:9-24 | helper for `ToISO`: the round trip through `toDateParts` |
| `Calendar.ISOPiecesFullDate` | src/utils/repeatGeneration.ts:20-24 | helper for `ToISO`: the `YYYY-MM-DD` shape |
| `Calendar.FourDigitYear` | src/utils/repeatGeneration.ts:23 | a year from 1000 to 9999 is written with four digits |
| `Calendar.KeyNotAfterDay31` | src/utils/repeatGeneration.ts:72-73 | a date with month 1..12 and day 1..31 whose (year, month, day) triple is lexicographically at most (y, m, 31) has a key no later than that 31st, even when its day overflows its month |
| `Calendar.FullDatePieces` | src/utils/repeatGeneration.ts:10 | a `YYYY-MM-DD` string is its three digit pieces joined by hyphens |
| `Calendar.FullDateParts` | src/utils/repeatGeneration.ts:9-12 | `toDateParts` of a `YYYY-MM-DD` string is the values of its three pieces |
| `Calendar.TwoDigitsValue` | src/utils/repeatGeneration.ts:10 | a two-digit piece has the value of its tens and units |
| `Calendar.FourDigitsValue` | src/utils/repeatGeneration.ts:10 | a four-digit piece has the value of its four digits |
| `Calendar.FullDateValue` | src/utils/repeatGeneration.ts:9-12 | `toDateParts` of a `YYYY-MM-DD` string, digit by digit |
| `Calendar.FullDateCanonical` | src/utils/repeatGeneration.ts:20-24 | `toISO` writes the parts of a `YYYY-MM-DD` string (year 1000 or later) back to that same string |
| `Calendar.DigitStringOrder` | src/utils/repeatGeneration.ts:55 | on digit strings of equal length, string order is numeric order and equal strings have equal values |
| `Calendar.FullDateStringOrder` | src/utils/repeatGeneration.ts:55 | on `YYYY-MM-DD` strings, the string comparison the clamp uses is the lexicographic order of the (year, month, day) digit triples, and string equality is equality of the triples |
| `RepeatGeneration.EffectiveInterval` | src/utils/repeatGeneration.ts:69 | the interval is at least 1; an interval of 1 or more is kept, anything below becomes 1 |
| `RepeatGeneration.Instance` | src/utils/repeatGeneration.ts:80 | an instance is the seed with only its date replaced, by the text `toISO` writes |
| `RepeatGeneration.EndKeyOf` | src/utils/repeatGeneration.ts:70-73 | with no end date, or an empty one, the end key is the key of 2025-12-31 |
| `RepeatGeneration.EndKeyWithinHorizon` | src/utils/repeatGeneration.ts:53-56 | an end date that is absent, empty, or `YYYY-MM-DD` with month 01..12 and day 01..31 gives an end key, and it is not after the key of 2025-12-31 |
| `RepeatGeneration.PushIfInRange` | src/utils/repeatGeneration.ts:77-82 | an instance dated (y, m, d) is appended exactly when its key is not after the end key, and nothing else changes |
| `RepeatGeneration.InstancesAppend` | src/utils/repeatGeneration.ts:80 | appending a date and its instance keeps dates and instances in step |
| `RepeatGeneration.CarryMonths` | src/utils/repeatGeneration.ts:113-116 | carrying keeps the running month index, leaves a month in 1..12 (for a positive month) and never lowers the year |
| `RepeatGeneration.CarryYears` | src/utils/repeatGeneration.ts:113-116 | the inner loop ends in the carried (year, month) |
| `RepeatGeneration.YearlyRuleOf` | src/utils/repeatGeneration.ts:122-123 | a seed on 29 February follows the leap-year rule, and one on 28 February of a common year follows the common-year rule, each exactly then |
| `RepeatGeneration.MonthlyStep` | src/utils/repeatGeneration.ts:106-117 | one iteration: the next nominal month has a strictly larger key, and the walk is this month's date (if it has the seed's day) followed by the rest |
| `RepeatGeneration.YearlyStep` | src/utils/repeatGeneration.ts:125-141 | one iteration: the next nominal year has a strictly larger key, and the walk is this year's date (if the rule admits it) followed by the rest |
| `RepeatGeneration.MonthlyAdvance` | src/utils/repeatGeneration.ts:106-117 | the monthly loop invariant survives one iteration, and the loop measure decreases |
| `RepeatGeneration.YearlyAdvance` | src/utils/repeatGeneration.ts:125-141 | the yearly loop invariant survives one iteration, and the loop measure decreases |
| `RepeatGeneration.GenerateRepeatEvents` | src/utils/repeatGeneration.ts:67-148 | a `none` rule yields exactly the seed; any other rule yields one instance per occurrence date, in order |
| `RepeatGeneration.InstancesFor` | src/utils/repeatGeneration.ts:89-143 | each repeating branch yields one instance per date of its rule |
| `RepeatGeneration.MonthlyInstances` | src/utils/repeatGeneration.ts:101-119 | the monthly loop yields one instance per date of the monthly walk |
| `RepeatGeneration.MonthlyVisit` | src/utils/repeatGeneration.ts:107-110 | the monthly body pushes (y, m, sd) exactly when the month has day `sd` |
| `RepeatGeneration.YearlyInstances` | src/utils/repeatGeneration.ts:121-143 | the yearly loop yields one instance per date of the yearly walk under the seed's rule |
| `RepeatGeneration.YearlyVisit` | src/utils/repeatGeneration.ts:126-139 | the yearly body pushes (y, sm, sd) exactly when the rule admits the year |
| `Occurrences.OnStrideOrdered` | src/utils/repeatGeneration.ts:112 | a value reached by whole positive steps is not below the start |
| `Occurrences.MonthlyBounds` | src/utils/repeatGeneration.ts:101-119 | the monthly dates strictly ascend, lie between the seed's key and the end key, keep the seed's day, and fall in months that have that day |
| `Occurrences.AscendingPrepend` | src/utils/repeatGeneration.ts:106-117 | putting at most one earlier date in front of an ascending list keeps it ascending |
| `Occurrences.MonthlyMembership` | src/utils/repeatGeneration.ts:101-119 | a date is emitted by the monthly rule exactly when it has the seed's day, its month is a whole number of intervals after the seed's, it is not after the end, and its month has that day |
| `Occurrences.MonthlyNoHitPastEnd` | src/utils/repeatGeneration.ts:106 | once the nominal month is past the end, no later month on the stride can be emitted |
| `Occurrences.MonthlyHitStep` | src/utils/repeatGeneration.ts:108-116 | membership on the stride splits into this month or a later stride month |
| `Occurrences.MonthlyStartsAtSeed` | src/utils/repeatGeneration.ts:106-110 | a seed past the end emits nothing; a seed not past the end whose month has its day is the first date |
| `Occurrences.YearlyBounds` | src/utils/repeatGeneration.ts:121-143 | the yearly dates strictly ascend, lie between the seed's key and the end key, keep the seed's month and day, and fall in years the rule admits |
| `Occurrences.YearlyMembership` | src/utils/repeatGeneration.ts:121-143 | a date is emitted by the yearly rule exactly when it has the seed's month and day, its year is a whole number of intervals after the seed's, it is not after the end, and the rule admits its year |
| `Occurrences.YearlyRules` | src/utils/repeatGeneration.ts:126-139 | a 29 February seed emits only in leap years, a common-year 28 February seed only in common years, any other seed only where its day exists |
| `Occurrences.SeedYearEmits` | src/utils/repeatGeneration.ts:122-139 | a real calendar seed date is always admitted in its own year |
| `Occurrences.YearlyStartsAtSeed` | src/utils/repeatGeneration.ts:125-139 | a seed past the end emits nothing; a seed not past the end in an admitted year is the first date |
| `Occurrences.InstancesAreSeedCopies` | src/utils/repeatGeneration.ts:80 | every instance equals the seed except for its date, which is `toISO` of its occurrence date |
| `Occurrences.DatesForAscendWithinEnd` | src/utils/repeatGeneration.ts:89-143 | every repeating rule's dates strictly ascend and none is after the end key |
| `Occurrences.OccurrencesWithinHorizon` | src/utils/repeatGeneration.ts:53-56 | with such an end date, no occurrence is after 2025-12-31 |
| `Occurrences.OccurrencesAscendWithinEnd` | src/utils/repeatGeneration.ts:70-143 | the generator's dates strictly ascend and never pass the effective end date; a NaN start or end yields nothing |
| `Occurrences.SingleDateKinds` | src/utils/repeatGeneration.ts:89-99 | a daily or weekly rule yields at most one date, the seed date, and yields it exactly when it is not after the end |
| `Occurrences.DatesForStartAtSeed` | src/utils/repeatGeneration.ts:89-143 | a real calendar seed date not after the end is the first date of every repeating rule |
| `Occurrences.SeedComesFirst` | src/utils/repeatGeneration.ts:67-143 | the first occurrence is the seed date, and for a canonical `YYYY-MM-DD` seed its instance is the seed itself |
| `GenerationExamples.MonthlyToYearEnd` | src/utils/repeatGeneration.ts:101-119 | a monthly rule of interval 1 up to 31 December emits exactly the rest of that year's months that have the seed's day |
| `GenerationExamples.HorizonEnd` | src/utils/repeatGeneration.ts:71-73 | an end date of `2025-12-31` gives the key of 2025-12-31 |
| `GenerationExamples.PastHorizonEnd` | src/utils/repeatGeneration.ts:71-73 | an end date of `2028-12-31` gives the key of 2025-12-31 |
| `GenerationExamples.SeedOccurrences` | src/utils/repeatGeneration.ts:70-73 | helper for the scenarios: a seed with a parsed start and end key occurs on its rule's dates |
| `GenerationExamples.MonthsWith31In2025` | src/__tests__/unit/easy.repeatGeneration.spec.ts:30-38 | the months of 2025 with a 31st |
| `GenerationExamples.MonthsWith30In2025` | src/__tests__/unit/easy.repeatGeneration.spec.ts:82-95 | the months of 2025 with a 30th |
| `GenerationExamples.ParsesJan31` | src/__tests__/unit/easy.repeatGeneration.spec.ts:15 | the seed date `2025-01-31` parses as (2025, 1, 31) |
| `GenerationExamples.ParsesJan30` | src/__tests__/unit/easy.repeatGeneration.spec.ts:67 | the seed date `2025-01-30` parses as (2025, 1, 30) |
| `GenerationExamples.ParsesLeapDay2024` | src/__tests__/unit/easy.repeatGeneration.spec.ts:45 | the seed date `2024-02-29` parses as (2024, 2, 29) |
| `GenerationExamples.ParsesFeb28` | src/__tests__/unit/easy.repeatGeneration.spec.ts:102 | the seed date `2025-02-28` parses as (2025, 2, 28) |
| `GenerationExamples.MonthlyOn31stExample` | src/__tests__/unit/easy.repeatGeneration.spec.ts:11-39 | monthly from 2025-01-31 to 2025-12-31 gives Jan, Mar, May, Jul, Aug, Oct, Dec 31 |
| `GenerationExamples.MonthlyOn30thExample` | src/__tests__/unit/easy.repeatGeneration.spec.ts:63-96 | monthly from 2025-01-30 to 2025-12-31 gives the 30th of every month but February |
| `GenerationExamples.LeapYears2024And2025` | src/utils/repeatGeneration.ts:27-29 | 2024 is a leap year and 2025 is not |
| `GenerationExamples.YearlyLeapDayExample` | src/__tests__/unit/easy.repeatGeneration.spec.ts:41-61 | yearly from 2024-02-29 to 2025-12-31 gives only 2024-02-29 |
| `GenerationExamples.LeapDayWalk` | src/utils/repeatGeneration.ts:125-129 | from 29 February of a leap year to the end of the following common year, only the leap year emits |
| `GenerationExamples.YearlyCommonFeb28Example` | src/__tests__/unit/easy.repeatGeneration.spec.ts:98-123 | yearly from 2025-02-28 with end date 2028-12-31 gives only 2025-02-28, because the end is clamped |
| `GenerationExamples.CommonFeb28ToHorizon` | src/utils/repeatGeneration.ts:121-141 | a yearly seed read as 2025-02-28 with the horizon's end key occurs on 2025-02-28 alone |
| `GenerationExamples.CommonFeb28Walk` | src/utils/repeatGeneration.ts:125-141 | from 28 February of a common year to the end of that year, only that year emits |
| `GenerationExamples.YearlyCommonFeb28Walk` | src/__tests__/unit/easy.repeatGeneration.spec.ts:117-122 | without the clamp, the walk from 2025-02-28 to 2028-12-31 gives 2025, 2026 and 2027 and skips the leap year 2028 |
| `GenerationExamples.MalformedEndPassesHorizon` | src/utils/repeatGeneration.ts:53-56 | a monthly rule from 2025-01-15 with end date `2025-11-99` emits 15 January 2026, a date after the horizon |
| `GenerationExamples.MalformedEndKept` | src/utils/repeatGeneration.ts:53-56 | the clamp keeps `2025-11-99`, and its end key is that of day 99 of November 2025 |
| `GenerationExamples.NovemberDay99IsBelowHorizon` | src/utils/repeatGeneration.ts:55 | `2025-11-99` does not compare after `2025-12-31` |
| `GenerationExamples.ParsesNov99` | src/utils/repeatGeneration.ts:9-12 | `2025-11-99` parses as (2025, 11, 99) |
| `GenerationExamples.ParsesJan15` | src/utils/repeatGeneration.ts:9-12 | `2025-01-15` parses as (2025, 1, 15) |
| `GenerationExamples.NovemberDay99` | src/utils/repeatGeneration.ts:15-17 | day 99 of November rolls past 31 December and past 15 January of the next year |
| `GenerationExamples.MonthOverflowPassesHorizon` | src/utils/repeatGeneration.ts:53-56 | a monthly rule from 2025-01-15 with end date `2024-26-01` emits 15 January 2026, a date after the horizon |
| `GenerationExamples.MonthOverflowKept` | src/utils/repeatGeneration.ts:53-56 | the clamp keeps `2024-26-01`, and its end key is that of day 1 of month 26 of 2024 |
| `GenerationExamples.MonthTwentySixIsBelowHorizon` | src/utils/repeatGeneration.ts:55 | `2024-26-01` does not compare after `2025-12-31` |
| `GenerationExamples.ParsesMonth26` | src/utils/repeatGeneration.ts:9-12 | `2024-26-01` parses as (2024, 26, 1) |
| `GenerationExamples.MonthTwentySix` | src/utils/repeatGeneration.ts:15-17 | month 26 of a year rolls over to February two years on, past 31 December and 15 January of the year between |
| `GenerationExamples.DayPastHorizonIsClamped` | src/utils/repeatGeneration.ts:55-56 | `2025-12-32` compares after `2025-12-31` and is cut down to the horizon |
| `GenerationExamples.OnStrideByOne` | src/utils/repeatGeneration.ts:112 | helper: with interval 1 the monthly walk visits every later month |
| `GenerationExamples.YearlyWalkStep` | src/utils/repeatGeneration.ts:130-133 | one common-year-rule step before the end: 28 February is emitted exactly in a common year |
| `RepeatValidation.ParseDate` | src/utils/repeatValidation.ts:10-11 | a date the validator parses is one `toDateParts` also parses, with the same key |
| `RepeatValidation.MaxDateKey` | src/utils/repeatValidation.ts:12 | `new Date('2025-12-31')` is the key of the date 31 December 2025 |
| `RepeatValidation.ParseDateOfISO` | src/utils/repeatValidation.ts:10-11 | a real calendar date of a four-digit year, written by `toISO`, parses back to its own key |
| `RepeatValidation.ValidateRepeatEndDate` | src/utils/repeatValidation.ts:7-27 | an empty end date yields `null`; otherwise a start or end date that does not parse yields the format message; the result is `null` or one of the three messages |
| `RepeatValidation.InvalidFormatVerdict` | src/utils/repeatValidation.ts:14-16 | the format message is returned exactly when there is an end date and one of the two dates does not parse |
| `RepeatValidation.EndDateVerdicts` | src/utils/repeatValidation.ts:18-26 | for real calendar dates: before-start exactly when the end is before the start (even if also past the horizon); after-horizon exactly when start ≤ end and the end is after 2025-12-31; `null` exactly when start ≤ end ≤ 2025-12-31 |
| `RepeatValidation.MessagesDiffer` | src/utils/repeatValidation.ts:15-23 | the three end-date messages are pairwise different, and so are the two interval messages |
| `RepeatValidation.AcceptedEndDateIsNotClamped` | src/utils/repeatValidation.ts:22-24 | an end date the validator accepts is a fixed point of `clampToSystemMaxEndDate` |
| `RepeatValidation.AcceptedEndDateKey` | src/utils/repeatValidation.ts:7-27 | for an accepted end date, the generator's end key is the key the validator parsed |
| `RepeatValidation.ValidateRepeatInterval` | src/utils/repeatValidation.ts:34-42 | `null` exactly for 1..999; the "at least 1" message exactly below 1; the "at most 999" message exactly above 999 |
| `RepeatValidation.AcceptedIntervalIsEffective` | src/utils/repeatValidation.ts:34-42 | an accepted interval is used by the generator unchanged |
| `RepeatValidation.EndBeforeStartExample` | src/__tests__/unit/easy.repeatValidation.spec.ts:6-9 | end `2025-01-01` with start `2025-12-31` yields the before-start message |
| `RepeatValidation.EndAfterMaxExample` | src/__tests__/unit/easy.repeatValidation.spec.ts:11-14 | end `2026-01-01` with start `2025-01-01` yields the after-horizon message |
| `RepeatValidation.EndAtMaxExample` | src/__tests__/unit/easy.repeatValidation.spec.ts:16-19 | end `2025-12-31` with start `2025-01-01` is accepted |
| `RepeatValidation.IntervalExamples` | src/__tests__/unit/easy.repeatValidation.spec.ts:21-34 | interval 0 and 1000 are rejected with their messages, 1 is accepted |

## Findings

| source | as written | input that shows it | evidently intended | confidence | as-written member | corrected member |
|---|---|---|---|---|---|---|
| src/utils/repeatGeneration.ts:53-56 | the clamp compares the text, so any end date whose text does not sort after `2025-12-31` is kept, even when its month, its day or a longer year makes `Date.UTC` land past the horizon (for example `2025-11-99` or `2024-26-01`; `2025-12-32` sorts after and is clamped) | monthly rule from `2025-01-15`, interval 1, end date `2025-11-99` (end key 7 February 2026) or `2024-26-01` (end key 1 February 2026): 15 January 2026 is emitted | no occurrence after the horizon 2025-12-31 (the validator rejects such an end date as malformed, so only callers that skip it are affected) | medium, not executed | `GenerationExamples.MalformedEndPassesHorizon` | `Occurrences.OccurrencesWithinHorizon` |

`GenerationExamples.MonthOverflowPassesHorizon` shows the same overrun through
the month instead of the day. The corrected member states the intended horizon bound for every end date the
validator's format accepts. It rests on `RepeatGeneration.EndKeyWithinHorizon`.
The generator itself is modelled as written.

## Left out

- `src/types.ts` is not part of this model. `EventForm` is modelled with the fields the tests build.
- The React hook `src/hooks/useEventOperations.ts` is left out. It is network and UI plumbing around the generator.
- The fallback for an unknown repeat type (`src/utils/repeatGeneration.ts:145-147`) is unreachable in the model. The repeat type is a closed datatype.
- Intervals are integers. The source's `repeat.interval || 1` also maps NaN and `undefined` to 1. Non-integer intervals are not modelled.
- `Date.UTC` maps years 0..99 to 1900..1999. The model uses the year as written, and a parsed year is never negative. Keys are not bounded by the ±8.64e15 ms time-value limit.
- `Number(v)` is modelled for digit strings and the empty string. Every other string, including signs, spaces, decimals and exponents, is treated as NaN.
- Strings are sequences of code points. JavaScript compares UTF-16 code units, and the two orders differ only outside the Basic Multilingual Plane. No date string reaches that range.
- `RepeatValidation.ParseDate`: `new Date(s)` is modelled for the date-only form `YYYY-MM-DD` only. Year-month, year-only, date-time, extended-year and non-ISO strings are treated as invalid. Its acceptance of day 31 in a shorter month, with rollover, follows V8. Other engines may reject such a date.
- `RepeatValidation.AcceptedEndDateIsNotClamped`: holds only for the `YYYY-MM-DD` form that `ParseDate` models. With a real `new Date`, `2025-12-31T00:00:00Z` is accepted by the validator, but it compares after `2025-12-31` as a string, so the clamp replaces it.
- `RepeatValidation.AcceptedEndDateKey`: holds only for the `YYYY-MM-DD` form, for the same reason. With a real `new Date`, `2025-12` is accepted by the validator, but `toDateParts` gives it a NaN day, so the generator's end key is NaN and it emits nothing.
- `RepeatValidation.EndDateVerdicts`: the order characterisation is stated for real calendar dates. For a day that rolls over, the verdict still follows the keys, as in the function itself.
- `RepeatValidation.ParseDateOfISO`: stated for years 1000..9999. `toISO` writes a shorter year without padding, and such a string is not in `YYYY-MM-DD` form.
- `Calendar.FullDateCanonical`: stated for years starting with a non-zero digit, for the same reason.
- `Occurrences.MonthlyMembership`: stated for a seed month in 1..12. The generator itself, and the order and bounds lemmas, cover any month.
- `Occurrences.DatesForStartAtSeed` and `Occurrences.SeedComesFirst`: stated for a seed that is a real calendar date. A rolled-over seed such as `2025-02-30` is not emitted on its own date.
- Each loop body of `generateRepeatEvents` is factored into a helper method. Each `pushIfInRange` call is a function returning the extended list, not a closure mutating `result`.
