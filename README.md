# DST rule evaluator, modelled in Dafny

This project models `dst.py`, a small calculator that says whether daylight
saving time applies at a given local standard-time date and hour. The DST
rules are configurable. The model has two modules.

- `Calendar` (calendar.dfy) holds the calendar primitives:
  - the month and weekday name tables and their lookups (`MonthNumber`, `DayNumber`);
  - the leap-year test `Leap` as the code writes it;
  - month lengths (`MonthLen`);
  - Tomohiko Sakamoto's day-of-week congruence (`Dow`, Sunday = 0).
- `DstRules` (dst.dfy) holds the rule evaluator:
  - a transition rule is the source's four-integer tuple `Rule(month, week, day, hour)`;
  - a schedule is a start rule and an end rule, and the source's table is the constant `UsSchedule`;
  - the signed week selector is decoded into `Nth`, `DayOfMonth` or `Last`, and `Resolve` turns it into a day of the month;
  - `Applies` is the query written as a three-way dispatch on the month;
  - the method `Dst` is the query as the source computes it. It searches the two-entry table with a loop that clears `start` on every miss and stops at the first rule whose month matches. When no rule matches, it falls through to the month-interval test. Its postcondition is that it always agrees with `Applies`.

The source reads its rule table from a global. The model passes the schedule
as a parameter, and `UsSchedule` is the shipped default, so the lemmas can
speak of any schedule or of the US one.

Integer semantics follow Python 2.7, which is the version the source declares.
For integers, `/` is floor division and `%` by a positive number is never
negative. For a positive divisor, that is exactly Dafny's Euclidean `/` and
`%`. So `Dow` and `Resolve` need no restriction on the year, the day or the
weekday selector. The only precondition is `1 <= month <= 12`. The month
tables need it, and it is also required of the whole query. Python bools used as numbers (`days + leap(year)`,
`year - (month < 3)`) are written as explicit `if … then 1 else 0`.

## Where the code differs from what it suggests

The model follows the code in each case below.

- Leap years. The expression at dst.py:27 has the shape of the Gregorian
  rule, with its century clauses. But those clauses cancel, so it reduces to
  `year % 4 == 0`, and 1900 and 2100 are leap years
  (`LeapIsDivisibleByFour`, `LeapExamples`). `LeapVersusGregorian` says
  exactly where the code and the Gregorian rule differ.
- As a consequence, `Dow` (which is Gregorian) and `MonthLen` (which follows
  `Leap`) disagree about February in century years not divisible by 400.
  `DowMonthChain` states this as an if-and-only-if, and `DowCenturyGap`
  shows it for 1900.
- Nth weekday. The comment at dst.py:45 promises the Nth occurrence of the
  weekday. The formula at dst.py:67 gives it only when the wanted weekday
  is not later in the week than day 7n. Otherwise it lands one week late
  (`NthSelector`, `NthSelectorOvershoot`: a first-Saturday rule gives
  13 November 2021, not 6 November). For Sundays, which the shipped table
  uses, it stays in the n-th seven-day run (`NthSundaySelector`). That run
  lies inside every month for the first four weeks. A fifth-week selector can
  resolve past the end of the month. Then DST never starts, or never ends, in
  that month (`NthSelectorPastMonthEnd`).
- Division. Under Python 3, `int(yy/4)` would truncate toward zero. Under
  the declared Python 2.7 it is floor division. The two differ only when
  `yy < 0`, where `yy` is the year, less one in January and February. This
  happens for negative years, and in January and February of year 0. The
  model uses floor division.

## Model

| member | source | states |
|---|---|---|
| `Calendar.IndexOf` | dst.py:21 | the index found holds the element, and no earlier position does (the first occurrence, as a tuple's `index` returns) |
| `Calendar.MonthNumber` | dst.py:20-21 | a valid month name maps to a number from 1 to 12 whose table entry is that name |
| `Calendar.DayNumber` | dst.py:23-24 | a valid day name maps to a number from 0 to 6 whose table entry is that name |
| `Calendar.MonthNumberOfName` | dst.py:20-21 | the k-th month name maps back to k + 1, so month names and numbers are inverse |
| `Calendar.DayNumberOfName` | dst.py:23-24 | the k-th day name maps back to k |
| `Calendar.Leap` | dst.py:26-27 | no contract of its own: the leap test as written; see `LeapIsDivisibleByFour`, `LeapVersusGregorian` and `LeapExamples` |
| `Calendar.LeapIsDivisibleByFour` | dst.py:26-27 | the leap test as written holds exactly when the year is divisible by 4 |
| `Calendar.LeapVersusGregorian` | dst.py:26-27 | the leap test agrees with the Gregorian rule exactly on non-century years and multiples of 400 |
| `Calendar.LeapExamples` | dst.py:26-27 | 2000, 2024 and 1600 are leap and 2021 is not; 1900 and 2100 are leap as written but not in the Gregorian rule |
| `Calendar.MonthLen` | dst.py:29-32 | every month has 28 to 31 days; February has 29 exactly in a leap year; the 30- and 31-day months are the usual ones |
| `Calendar.SakamotoSum` | dst.py:38-39 | no contract of its own: the sum the congruence reduces modulo 7; see `DowShift`, `DowMonthChain` and `DowYearChain` |
| `Calendar.Dow` | dst.py:34-39 | the weekday is always from 0 to 6 |
| `Calendar.DowExamples` | dst.py:36-39 | 1 Jan 2000 is a Saturday; 14 Mar 2021, 7 Nov 2021 and 28 Feb 2021 are Sundays |
| `Calendar.DowShift` | dst.py:39 | moving k days on within a month moves the weekday k places on, modulo 7 |
| `Calendar.DowNextDay` | dst.py:39 | the next day of the month has the next weekday |
| `Calendar.DowWeekPeriodic` | dst.py:39 | day d + 7 has the same weekday as day d |
| `Calendar.DowWithinWeekInjective` | dst.py:39 | two days at most six apart with the same weekday are the same day |
| `Calendar.DowMonthChain` | dst.py:29-39 | the 1st of month m + 1 is the weekday after the last day of month m, for every month except February; after February it holds exactly when the year is not a century year or is a multiple of 400 |
| `Calendar.DowYearChain` | dst.py:36-39 | 1 January is the weekday after 31 December of the year before |
| `Calendar.DowCenturyGap` | dst.py:26-39 | in 1900 February has 29 days, yet 1 March is not the weekday after 29 February |
| `DstRules.UsScheduleValues` | dst.py:52-55 | the shipped table is the second Sunday of March and the first Sunday of November, both at hour 2 |
| `DstRules.DecodeEncode` | dst.py:41-51 | decoding the table encoding of a well-formed selector gives that selector back |
| `DstRules.EncodeDecode` | dst.py:41-51 | every decoded selector is well formed, and encoding it gives back the original pair exactly when the week selector is at least -1 |
| `DstRules.NthWeekdayUnique` | dst.py:44-45 | each seven-day run holds at most one day of a given weekday |
| `DstRules.NthWeekdayExists` | dst.py:44-45 | each seven-day run holds at least one day of every weekday |
| `DstRules.Decode` | dst.py:44-50 | no contract of its own: positive week selectors mean the n-th weekday, zero a date, negative the last weekday; see `DecodeEncode` and `EncodeDecode` |
| `DstRules.Resolve` | dst.py:65-73 | no contract of its own: turns a selector into a day of the month; see `NthSelector`, `NthSelectorInMonth`, `LastSelector` and `DateSelector` |
| `DstRules.BoundaryDay` | dst.py:65-73 | no contract of its own: the day of a rule's transition, resolving its decoded selector; see `UsScheduleBoundaries` and `UsSchedule2021` |
| `DstRules.NthSelector` | dst.py:65-67 | the Nth selector always lands on the wanted weekday within six days of day 7n; it lies in days 7n-6 to 7n exactly when the weekday is not later than that of day 7n, and otherwise in the next seven-day run |
| `DstRules.NthSelectorInMonth` | dst.py:65-67 | for weeks 1 to 4, the Nth selector is the true n-th occurrence in the month exactly when the weekday is not later than that of day 7n; in weeks 1 to 3 an overshoot is the true (n+1)-th occurrence |
| `DstRules.NthSundaySelector` | dst.py:65-67 | an Nth-Sunday selector always lies in days 7n-6 to 7n, and for weeks 1 to 4 it is the true n-th Sunday of the month |
| `DstRules.NthSelectorPastMonthEnd` | dst.py:65-76 | the fifth Sunday of February 2021 resolves to day 35 of a 28-day month, so a rule starting DST there never lets it start in February |
| `DstRules.NthSelectorOvershoot` | dst.py:65-67 | a first-Saturday selector in November 2021 gives the 13th, while the first Saturday is the 6th |
| `DstRules.LastSelector` | dst.py:68-73 | the Last selector lies in the final seven days of the month, has the wanted weekday, and no later day of the month has it |
| `DstRules.DateSelector` | dst.py:68-69 | the date selector resolves to the date itself |
| `DstRules.LastSundayFebruary2021` | dst.py:70-73 | the last Sunday of February 2021 is the 28th |
| `DstRules.AfterStart` | dst.py:75 | no contract of its own: the start-month comparison; see `AfterStartInstant` and `StartMonthMonotone` |
| `DstRules.BeforeEnd` | dst.py:76 | no contract of its own: the end-month comparison; see `BeforeEndInstant`, `BeforeEndAtMidnight` and `EndMonthMonotone` |
| `DstRules.Applies` | dst.py:57-76 | no contract of its own: the query as a three-way dispatch on the month; see `DstRules.Dst`, `InteriorMonth`, `SameMonthUsesStart` and the schedule lemmas |
| `DstRules.Dst` | dst.py:57-76 | the for-else table search followed by the boundary comparison always agrees with the three-way dispatch `Applies` |
| `DstRules.AfterStartInstant` | dst.py:74-75 | for hours of the day, the start comparison holds exactly when the instant is at or after the transition instant |
| `DstRules.BeforeEndInstant` | dst.py:76 | for hours 0 to 23 and end hours 1 to 24, the end comparison holds exactly when the following hour is still before the transition instant |
| `DstRules.BeforeEndAtMidnight` | dst.py:76 | with end hour 0 the end comparison holds exactly on the days before the transition day, so the one-hour early end does not carry over midnight |
| `DstRules.InteriorMonth` | dst.py:59-64 | in a month matching neither rule, DST applies exactly when the month lies strictly between the two rule months, whatever the day and hour |
| `DstRules.SameMonthUsesStart` | dst.py:59-64 | when both rules name one month, the start comparison decides and the end rule is unreachable |
| `DstRules.StartMonthMonotone` | dst.py:74-75 | through the start month, once DST applies it keeps applying at every later day and hour |
| `DstRules.EndMonthMonotone` | dst.py:76 | through the end month, once DST stops applying it stays off at every later day and hour |
| `DstRules.UsScheduleSeasons` | dst.py:52-64 | with the shipped table, DST never applies in January, February or December and always applies from April to October, in every year |
| `DstRules.UsScheduleBoundaries` | dst.py:52-67 | with the shipped table, the start day is the second Sunday of March and the end day the first Sunday of November, in every year |
| `DstRules.UsSchedule2021` | dst.py:52-76 | for 2021: the boundaries are 14 March and 7 November; 14 Mar hour 2 is DST, hour 1 and 13 Mar hour 23 are not; 7 Nov hour 0 and 6 Nov hour 23 are DST, 7 Nov hour 1 is not |

## Left out

- The `__main__` block and its `calendar` month-grid display (dst.py:78-94) are printing only, and are not modelled.
- There is no input validation, as the source documents. `1 <= month <= 12` is a precondition of the whole query (`Applies`, `Dst`), even of the between-the-two-months branch, which indexes no table and would return a value for month 13. Python's wrap-around indexing for a month of 0 or less is not modelled.
- The `ValueError` that a tuple `index` raises for an unknown name is not modelled. `MonthNumber` and `DayNumber` require one of the 12 or 7 valid names.
- Transitions at a UTC instant (the European convention) are not implemented in the source, so they are not modelled.
- Python 3's float division, which would change `Dow` when `yy < 0`, is not modelled. The source declares Python 2.7.
- Determinism needs no lemma: every member of the model is a function of its inputs, or a method that reads no state.
