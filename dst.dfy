/** The DST rule evaluator: a schedule of two transition rules (DST start and
    DST end), the decoding of each rule's signed week selector, the
    resolution of a selector to a day of the month, and the query that says
    whether DST applies at a standard-time date and hour.

    `Applies` is the query as a three-way dispatch on the month; the method
    `Dst` is the query as the source writes it, searching the two-entry rule
    table with a loop, and is proved equal to `Applies`. */
module DstRules {
  import opened Calendar

  /** One transition rule, the source's four-integer tuple: the month
      (January = 1), the signed week selector, the day selector (a weekday,
      Sunday = 0, or a date when the week selector is 0) and the hour of the
      change in local standard time. */
  datatype Rule = Rule(month: int, week: int, day: int, hour: int)

  /** The start rule and the end rule, in this order. */
  datatype Schedule = Schedule(startRule: Rule, endRule: Rule)

  /** What the signed week selector means. */
  datatype WeekSelector =
    | Nth(n: int, weekday: int)   // the n-th `weekday` of the month, n > 0
    | DayOfMonth(date: int)       // a fixed date
    | Last(weekday: int)          // the last `weekday` of the month

  /** The shipped US-style table: the second Sunday of March and the first
      Sunday of November, both at 2 o'clock. */
  const UsSchedule: Schedule :=
    Schedule(Rule(MonthNumber("MAR"), 2, DayNumber("SUN"), 2),
             Rule(MonthNumber("NOV"), 1, DayNumber("SUN"), 2))

  lemma UsScheduleValues()
    ensures UsSchedule == Schedule(Rule(3, 2, 0, 2), Rule(11, 1, 0, 2))
  {
    MonthNumberOfName(2);
    MonthNumberOfName(10);
    DayNumberOfName(0);
  }

  /** Positive week selectors count weeks, zero selects a date and negative
      ones select the last weekday. */
  function Decode(week: int, day: int): WeekSelector
  {
    if week > 0 then Nth(week, day)
    else if week == 0 then DayOfMonth(day)
    else Last(day)
  }

  /** The table encoding of a selector; the last weekday is written with -1. */
  function Encode(sel: WeekSelector): (int, int)
  {
    match sel
    case Nth(n, weekday) => (n, weekday)
    case DayOfMonth(date) => (0, date)
    case Last(weekday) => (-1, weekday)
  }

  predicate WellFormed(sel: WeekSelector)
  {
    sel.Nth? ==> sel.n > 0
  }

  lemma DecodeEncode(sel: WeekSelector)
    requires WellFormed(sel)
    ensures Decode(Encode(sel).0, Encode(sel).1) == sel
  {
  }

  /** Decoding loses only the magnitude of a negative week selector. */
  lemma EncodeDecode(week: int, day: int)
    ensures WellFormed(Decode(week, day))
    ensures Encode(Decode(week, day)) == (week, day) <==> week >= -1
  {
  }

  /** The day of the month a selector stands for in the given year and
      month. The Nth case takes the weekday of day 7n and moves to the wanted
      weekday within the same week; the Last case steps back from the last
      day of the month to the wanted weekday. */
  function Resolve(sel: WeekSelector, year: int, month: int): int
    requires 1 <= month <= 12
  {
    match sel
    case Nth(n, weekday) =>
      var ww := n * 7;
      ww + weekday - Dow(year, month, ww)
    case DayOfMonth(date) => date
    case Last(weekday) =>
      var ldom := MonthLen(year, month);
      var ldow := Dow(year, month, ldom);
      ldom - ((ldow - weekday) % 7)
  }

  /** The day of the month on which a rule's transition falls. */
  function BoundaryDay(rule: Rule, year: int, month: int): int
    requires 1 <= month <= 12
  {
    Resolve(Decode(rule.week, rule.day), year, month)
  }

  /** Day `dd` has `weekday` and lies in the n-th run of seven days of the
      month, days 7n-6 to 7n. Such a run holds every weekday exactly once
      (`NthWeekdayExists`, `NthWeekdayUnique`); the run may reach past the
      end of the month. */
  ghost predicate InNthWeek(year: int, month: int, dd: int, n: int, weekday: int)
    requires 1 <= month <= 12
  {
    Dow(year, month, dd) == weekday && 7 * n - 6 <= dd <= 7 * n
  }

  /** Day `dd` is the n-th occurrence of `weekday` in the month: a day of the
      month in the n-th seven-day run with that weekday, so exactly n - 1
      earlier days of the month share it. */
  ghost predicate IsNthWeekday(year: int, month: int, dd: int, n: int, weekday: int)
    requires 1 <= month <= 12
  {
    1 <= n && InNthWeek(year, month, dd, n, weekday) && dd <= MonthLen(year, month)
  }

  /** Day `dd` is the last occurrence of `weekday` in the month. */
  ghost predicate IsLastWeekday(year: int, month: int, dd: int, weekday: int)
    requires 1 <= month <= 12
  {
    && 1 <= dd <= MonthLen(year, month)
    && Dow(year, month, dd) == weekday
    && forall k :: dd < k <= MonthLen(year, month) ==> Dow(year, month, k) != weekday
  }

  /** Each run of seven days holds at most one day of a given weekday. */
  lemma NthWeekdayUnique(year: int, month: int, a: int, b: int, n: int, weekday: int)
    requires 1 <= month <= 12
    requires InNthWeek(year, month, a, n, weekday)
    requires InNthWeek(year, month, b, n, weekday)
    ensures a == b
  {
    if a <= b {
      DowWithinWeekInjective(year, month, a, b);
    } else {
      DowWithinWeekInjective(year, month, b, a);
    }
  }

  /** Each run of seven days holds at least one day of every weekday. */
  lemma NthWeekdayExists(year: int, month: int, n: int, weekday: int)
    requires 1 <= month <= 12
    requires 0 <= weekday <= 6
    ensures exists dd :: InNthWeek(year, month, dd, n, weekday)
  {
    StepBackToWeekday(year, month, 7 * n, weekday);
    var dd := 7 * n - ((Dow(year, month, 7 * n) - weekday) % 7);
    assert InNthWeek(year, month, dd, n, weekday);
  }

  /** The Nth selector always lands on the wanted weekday, within six days of
      day 7n. It lies in the n-th seven-day run exactly when the wanted
      weekday is not later in the week than day 7n; otherwise it overshoots
      by a week into the (n+1)-th run. */
  lemma NthSelector(year: int, month: int, n: int, weekday: int)
    requires 1 <= month <= 12
    requires 0 <= weekday <= 6
    ensures var dd := Resolve(Nth(n, weekday), year, month);
      && Dow(year, month, dd) == weekday
      && 7 * n - 6 <= dd <= 7 * n + 6
      && (InNthWeek(year, month, dd, n, weekday) <==> weekday <= Dow(year, month, 7 * n))
      && (weekday > Dow(year, month, 7 * n) ==> InNthWeek(year, month, dd, n + 1, weekday))
  {
    var w := Dow(year, month, 7 * n);
    DowShift(year, month, 7 * n, weekday - w);
  }

  /** For the first four weeks the seven-day run lies inside every month, so
      the Nth selector gives the true n-th occurrence exactly when the wanted
      weekday is not later in the week than day 7n, and in the first three
      weeks an overshoot gives the true (n+1)-th occurrence. */
  lemma NthSelectorInMonth(year: int, month: int, n: int, weekday: int)
    requires 1 <= month <= 12
    requires 0 <= weekday <= 6
    requires 1 <= n <= 4
    ensures var dd := Resolve(Nth(n, weekday), year, month);
      && (IsNthWeekday(year, month, dd, n, weekday) <==> weekday <= Dow(year, month, 7 * n))
      && (n <= 3 && weekday > Dow(year, month, 7 * n) ==> IsNthWeekday(year, month, dd, n + 1, weekday))
  {
    NthSelector(year, month, n, weekday);
  }

  /** Sunday is never later in the week than any day, so an Nth-Sunday rule
      always lands in the n-th seven-day run, and for the first four weeks
      on the true n-th Sunday of the month. */
  lemma NthSundaySelector(year: int, month: int, n: int)
    requires 1 <= month <= 12
    ensures InNthWeek(year, month, Resolve(Nth(n, 0), year, month), n, 0)
    ensures 1 <= n <= 4 ==> IsNthWeekday(year, month, Resolve(Nth(n, 0), year, month), n, 0)
  {
    NthSelector(year, month, n, 0);
  }

  /** A fifth-week selector can resolve past the end of the month: the fifth
      Sunday of February 2021 resolves to day 35 of a 28-day month. A rule
      with it as its start never lets DST start in that month. */
  lemma NthSelectorPastMonthEnd(mday: int, hour: int)
    requires mday <= 28
    ensures Resolve(Nth(5, 0), 2021, 2) == 35 && MonthLen(2021, 2) == 28
    ensures !Applies(Schedule(Rule(2, 5, 0, 2), Rule(11, 1, 0, 2)), 2021, 2, mday, hour)
  {
  }

  /** The Last selector resolves to the last occurrence of the weekday, in
      the final seven days of the month. */
  lemma LastSelector(year: int, month: int, weekday: int)
    requires 1 <= month <= 12
    requires 0 <= weekday <= 6
    ensures var dd := Resolve(Last(weekday), year, month);
      && MonthLen(year, month) - 6 <= dd <= MonthLen(year, month)
      && IsLastWeekday(year, month, dd, weekday)
  {
    StepBackToWeekday(year, month, MonthLen(year, month), weekday);
  }

  /** Stepping back from day `ldom` by the weekday difference reaches the
      latest day up to `ldom` with the wanted weekday. */
  lemma StepBackToWeekday(year: int, month: int, ldom: int, weekday: int)
    requires 1 <= month <= 12
    requires 0 <= weekday <= 6
    ensures var dd := ldom - ((Dow(year, month, ldom) - weekday) % 7);
      && ldom - 6 <= dd <= ldom
      && Dow(year, month, dd) == weekday
      && forall k :: dd < k <= ldom ==> Dow(year, month, k) != weekday
  {
    var j := (Dow(year, month, ldom) - weekday) % 7;
    var dd := ldom - j;
    DowShift(year, month, ldom, -j);
    forall k | dd < k <= ldom
      ensures Dow(year, month, k) != weekday
    {
      DowShift(year, month, dd, k - dd);
    }
  }

  /** The date selector resolves to the date itself. */
  lemma DateSelector(year: int, month: int, date: int)
    requires 1 <= month <= 12
    ensures Resolve(DayOfMonth(date), year, month) == date
  {
  }

  /** With a Saturday, the first-week selector overshoots: in November 2021
      it gives the 13th, while the first Saturday is the 6th. */
  lemma NthSelectorOvershoot()
    ensures Resolve(Nth(1, 6), 2021, 11) == 13
    ensures IsNthWeekday(2021, 11, 6, 1, 6)
    ensures !IsNthWeekday(2021, 11, 13, 1, 6)
  {
  }

  lemma LastSundayFebruary2021()
    ensures Resolve(Last(0), 2021, 2) == 28
  {
  }

  /** In the start month DST applies from the transition hour on. */
  predicate AfterStart(mday: int, hour: int, dd: int, h: int)
  {
    mday > dd || (mday == dd && hour >= h)
  }

  /** In the end month DST applies until one hour before the transition
      hour. */
  predicate BeforeEnd(mday: int, hour: int, dd: int, h: int)
  {
    mday < dd || (mday == dd && hour + 1 < h)
  }

  /** Whether DST applies at a standard-time date and hour: in the start
      month compare against the start boundary, in the end month against the
      end boundary, in any other month look whether the month lies strictly
      between the two. The start month is tested first. */
  predicate Applies(sched: Schedule, year: int, month: int, mday: int, hour: int)
    requires 1 <= month <= 12
  {
    if month == sched.startRule.month then
      AfterStart(mday, hour, BoundaryDay(sched.startRule, year, month), sched.startRule.hour)
    else if month == sched.endRule.month then
      BeforeEnd(mday, hour, BoundaryDay(sched.endRule, year, month), sched.endRule.hour)
    else
      sched.startRule.month < month < sched.endRule.month
  }

  /** The query as the source computes it: a search of the two-entry table
      that clears `start` on every miss, stops at the first rule whose month
      matches and, when none matches, falls through to the month-interval
      test. */
  method Dst(sched: Schedule, year: int, month: int, mday: int, hour: int) returns (inEffect: bool)
    requires 1 <= month <= 12
    ensures inEffect == Applies(sched, year, month, mday, hour)
  {
    var table := [sched.startRule, sched.endRule];
    var start := true;
    var i := 0;
    while i < |table| && month != table[i].month
      invariant 0 <= i <= |table|
      invariant start <==> i == 0
      invariant forall j :: 0 <= j < i ==> table[j].month != month
    {
      start := false;
      i := i + 1;
    }
    if i == |table| {
      return month > table[0].month && month < table[1].month;
    }
    var rule := table[i];
    var dd;
    if rule.week > 0 {
      var ww := rule.week * 7;
      dd := ww + rule.day - Dow(year, month, ww);
    } else if rule.week == 0 {
      dd := rule.day;
    } else {
      var ldom := MonthLen(year, month);
      var ldow := Dow(year, month, ldom);
      dd := ldom - ((ldow - rule.day) % 7);
    }
    if start {
      inEffect := mday > dd || (mday == dd && hour >= rule.hour);
    } else {
      inEffect := mday < dd || (mday == dd && hour + 1 < rule.hour);
    }
  }

  /** The hour count of a day and hour, for comparing instants in a month. */
  function HourIndex(mday: int, hour: int): int
  {
    24 * mday + hour
  }

  /** For hours of the day, the start comparison is "at or after the
      transition instant". */
  lemma AfterStartInstant(mday: int, hour: int, dd: int, h: int)
    requires 0 <= hour <= 23 && 0 <= h <= 23
    ensures AfterStart(mday, hour, dd, h) <==> HourIndex(mday, hour) >= HourIndex(dd, h)
  {
  }

  /** For end hours from 1 on, the end comparison is "the hour after this
      one is still before the transition instant". */
  lemma BeforeEndInstant(mday: int, hour: int, dd: int, h: int)
    requires 0 <= hour <= 23 && 1 <= h <= 24
    ensures BeforeEnd(mday, hour, dd, h) <==> HourIndex(mday, hour) + 1 < HourIndex(dd, h)
  {
  }

  /** With end hour 0 the one-hour early end does not carry over midnight:
      DST applies on every day before the transition day, its last hour
      included, and on no hour of the transition day. */
  lemma BeforeEndAtMidnight(mday: int, hour: int, dd: int)
    requires 0 <= hour <= 23
    ensures BeforeEnd(mday, hour, dd, 0) <==> mday < dd
    ensures BeforeEnd(dd - 1, 23, dd, 0) && HourIndex(dd - 1, 23) + 1 == HourIndex(dd, 0)
  {
  }

  /** Outside both rule months the answer depends on the month alone. */
  lemma InteriorMonth(sched: Schedule, year: int, month: int, mday: int, hour: int)
    requires 1 <= month <= 12
    requires month != sched.startRule.month && month != sched.endRule.month
    ensures Applies(sched, year, month, mday, hour)
      <==> sched.startRule.month < month < sched.endRule.month
  {
  }

  /** When both rules name the same month, the start comparison decides and
      the end rule is never consulted. */
  lemma SameMonthUsesStart(sched: Schedule, year: int, mday: int, hour: int)
    requires 1 <= sched.startRule.month <= 12
    requires sched.startRule.month == sched.endRule.month
    ensures var month := sched.startRule.month;
      (Applies(sched, year, month, mday, hour)
       <==> AfterStart(mday, hour, BoundaryDay(sched.startRule, year, month), sched.startRule.hour))
  {
  }

  /** Through the start month, once DST applies it keeps applying. */
  lemma StartMonthMonotone(sched: Schedule, year: int, mday1: int, hour1: int, mday2: int, hour2: int)
    requires 1 <= sched.startRule.month <= 12
    requires mday1 < mday2 || (mday1 == mday2 && hour1 <= hour2)
    requires Applies(sched, year, sched.startRule.month, mday1, hour1)
    ensures Applies(sched, year, sched.startRule.month, mday2, hour2)
  {
  }

  /** Through the end month, once DST stops applying it stays off. */
  lemma EndMonthMonotone(sched: Schedule, year: int, mday1: int, hour1: int, mday2: int, hour2: int)
    requires 1 <= sched.endRule.month <= 12
    requires sched.endRule.month != sched.startRule.month
    requires mday1 < mday2 || (mday1 == mday2 && hour1 <= hour2)
    requires Applies(sched, year, sched.endRule.month, mday2, hour2)
    ensures Applies(sched, year, sched.endRule.month, mday1, hour1)
  {
  }

  /** With the US table, DST never applies in January, February or
      December and always applies from April to October, in every year. */
  lemma UsScheduleSeasons(year: int, month: int, mday: int, hour: int)
    requires 1 <= month <= 12
    ensures month in {1, 2, 12} ==> !Applies(UsSchedule, year, month, mday, hour)
    ensures 4 <= month <= 10 ==> Applies(UsSchedule, year, month, mday, hour)
  {
    UsScheduleValues();
  }

  /** In every year the US table starts DST on the second Sunday of March
      and ends it on the first Sunday of November. */
  lemma UsScheduleBoundaries(year: int)
    ensures IsNthWeekday(year, 3, BoundaryDay(UsSchedule.startRule, year, 3), 2, 0)
    ensures IsNthWeekday(year, 11, BoundaryDay(UsSchedule.endRule, year, 11), 1, 0)
  {
    UsScheduleValues();
    NthSundaySelector(year, 3, 2);
    NthSundaySelector(year, 11, 1);
  }

  /** The 2021 transitions: 14 March at 2 o'clock and 7 November, when DST
      stops applying from 1 o'clock standard time. */
  lemma UsSchedule2021()
    ensures BoundaryDay(UsSchedule.startRule, 2021, 3) == 14
    ensures BoundaryDay(UsSchedule.endRule, 2021, 11) == 7
    ensures Applies(UsSchedule, 2021, 3, 14, 2)
    ensures !Applies(UsSchedule, 2021, 3, 14, 1)
    ensures !Applies(UsSchedule, 2021, 3, 13, 23)
    ensures Applies(UsSchedule, 2021, 11, 7, 0)
    ensures !Applies(UsSchedule, 2021, 11, 7, 1)
    ensures Applies(UsSchedule, 2021, 11, 6, 23)
  {
    UsScheduleValues();
  }
}
