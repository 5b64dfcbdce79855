/** Calendar primitives of the DST evaluator: the month and weekday name
    tables, the leap-year test, month lengths and Sakamoto's day-of-week
    congruence (Sunday = 0).

    Arithmetic follows the Python 2.7 integer semantics the source declares:
    `/` by a positive constant is floor division and `%` by a positive
    constant is never negative, which is exactly Dafny's `/` and `%` for a
    positive divisor. The functions are therefore total in the year. */
module Calendar {

  const MonthNames: seq<string> :=
    ["JAN", "FEB", "MAR", "APR", "MAY", "JUN", "JUL", "AUG", "SEP", "OCT", "NOV", "DEC"]

  const DayNames: seq<string> := ["SUN", "MON", "TUE", "WED", "THU", "FRI", "SAT"]

  /** Days of each month in a common year, January first. */
  const MonthDays: seq<int> := [31, 28, 31, 30, 31, 30, 31, 31, 30, 31, 30, 31]

  /** Sakamoto's per-month offsets, January first. */
  const DowTable: seq<int> := [0, 3, 2, 5, 0, 3, 5, 1, 4, 6, 2, 4]

  /** The position of the first occurrence of `x` in `s`, as a tuple's
      `index` method finds it. */
  function IndexOf<T(==)>(s: seq<T>, x: T): (i: nat)
    requires x in s
    ensures i < |s| && s[i] == x
    ensures forall j :: 0 <= j < i ==> s[j] != x
  {
    if s[0] == x then 0 else 1 + IndexOf(s[1..], x)
  }

  ghost predicate Distinct<T>(s: seq<T>)
  {
    forall i, j :: 0 <= i < j < |s| ==> s[i] != s[j]
  }

  /** Month number (January = 1) of a three-letter month name. */
  function MonthNumber(name: string): (month: int)
    requires name in MonthNames
    ensures 1 <= month <= 12 && MonthNames[month - 1] == name
  {
    IndexOf(MonthNames, name) + 1
  }

  /** Weekday number (Sunday = 0) of a three-letter day name. */
  function DayNumber(name: string): (weekday: int)
    requires name in DayNames
    ensures 0 <= weekday <= 6 && DayNames[weekday] == name
  {
    IndexOf(DayNames, name)
  }

  lemma MonthNamesDistinct()
    ensures Distinct(MonthNames)
  {
    forall i, j | 0 <= i < j < |MonthNames|
      ensures MonthNames[i] != MonthNames[j]
    {
      assert MonthNames[i][0] != MonthNames[j][0] || MonthNames[i][1] != MonthNames[j][1]
        || MonthNames[i][2] != MonthNames[j][2];
    }
  }

  lemma DayNamesDistinct()
    ensures Distinct(DayNames)
  {
    forall i, j | 0 <= i < j < |DayNames|
      ensures DayNames[i] != DayNames[j]
    {
      assert DayNames[i][0] != DayNames[j][0] || DayNames[i][1] != DayNames[j][1];
    }
  }

  /** In a list without repeats, the index of the k-th element is k. */
  lemma IndexOfDistinct<T>(s: seq<T>, k: int)
    requires Distinct(s) && 0 <= k < |s|
    ensures IndexOf(s, s[k]) == k
  {
  }

  /** Month names and month numbers are inverse to each other. */
  lemma MonthNumberOfName(k: int)
    requires 0 <= k < 12
    ensures MonthNumber(MonthNames[k]) == k + 1
  {
    MonthNamesDistinct();
    IndexOfDistinct(MonthNames, k);
  }

  /** Day names and weekday numbers are inverse to each other. */
  lemma DayNumberOfName(k: int)
    requires 0 <= k < 7
    ensures DayNumber(DayNames[k]) == k
  {
    DayNamesDistinct();
    IndexOfDistinct(DayNames, k);
  }

  /** The leap-year test as the source writes it. Because every multiple of
      100 is a multiple of 4, its century clauses cancel and what remains is
      divisibility by 4 alone. */
  predicate Leap(year: int)
  {
    !(year % 4 != 0 && (year % 100 != 0 || !(year % 400 != 0)))
  }

  lemma LeapIsDivisibleByFour(year: int)
    ensures Leap(year) <==> year % 4 == 0
  {
    CenturyDivisibility(year);
  }

  /** The Gregorian rule the source's comments describe, as a reference. */
  predicate GregorianLeap(year: int)
  {
    year % 4 == 0 && (year % 100 != 0 || year % 400 == 0)
  }

  /** Leap agrees with the Gregorian calendar exactly on the years that are
      not centuries, or that are multiples of 400. */
  lemma LeapVersusGregorian(year: int)
    ensures Leap(year) == GregorianLeap(year) <==> (year % 100 != 0 || year % 400 == 0)
  {
    CenturyDivisibility(year);
  }

  lemma LeapExamples()
    ensures Leap(2000) && Leap(2024) && Leap(1600) && !Leap(2021)
    ensures Leap(1900) && Leap(2100)
    ensures GregorianLeap(2000) && !GregorianLeap(1900) && !GregorianLeap(2100)
  {
  }

  /** Multiples of 400 are multiples of 100, and those are multiples of 4. */
  lemma CenturyDivisibility(y: int)
    ensures y % 400 == 0 ==> y % 100 == 0
    ensures y % 100 == 0 ==> y % 4 == 0
  {
    if y % 400 == 0 {
      MultipleMod(y, 100, 4 * (y / 400));
    }
    if y % 100 == 0 {
      MultipleMod(y, 4, 25 * (y / 100));
    }
  }

  /** A number of the form k * q leaves no remainder modulo k. */
  lemma MultipleMod(y: int, k: int, q: int)
    requires k in {4, 100} && y == k * q
    ensures y % k == 0
  {
    if k == 4 {
      assert y == 4 * q;
    } else {
      assert y == 100 * q;
    }
  }

  /** The length of a month; February gains a day in a leap year. */
  function MonthLen(year: int, month: int): (days: int)
    requires 1 <= month <= 12
    ensures 28 <= days <= 31
    ensures month == 2 ==> (days == 29 <==> Leap(year)) && (days == 28 <==> !Leap(year))
    ensures month in {4, 6, 9, 11} ==> days == 30
    ensures month in {1, 3, 5, 7, 8, 10, 12} ==> days == 31
  {
    var days := MonthDays[month - 1];
    if month != 2 then days else days + (if Leap(year) then 1 else 0)
  }

  /** The sum Sakamoto's congruence reduces modulo 7: January and February
      count as the last months of the previous year. */
  function SakamotoSum(year: int, month: int, mday: int): int
    requires 1 <= month <= 12
  {
    var yy := year - (if month < 3 then 1 else 0);
    yy + yy / 4 - yy / 100 + yy / 400 + DowTable[month - 1] + mday
  }

  /** The day of the week, Sunday = 0. */
  function Dow(year: int, month: int, mday: int): (weekday: int)
    requires 1 <= month <= 12
    ensures 0 <= weekday <= 6
  {
    SakamotoSum(year, month, mday) % 7
  }

  lemma DowExamples()
    ensures Dow(2000, 1, 1) == 6
    ensures Dow(2021, 3, 14) == 0
    ensures Dow(2021, 11, 7) == 0
    ensures Dow(2021, 2, 28) == 0
  {
  }

  /** (a + k) % 7 depends on a only through a % 7. */
  lemma ModAddSeven(a: int, k: int)
    ensures (a + k) % 7 == (a % 7 + k) % 7
  {
    assert a + k == 7 * (a / 7) + (a % 7 + k);
  }

  /** Moving k days on within a month moves the weekday k places on. */
  lemma {:induction false} DowShift(year: int, month: int, mday: int, k: int)
    requires 1 <= month <= 12
    ensures Dow(year, month, mday + k) == (Dow(year, month, mday) + k) % 7
  {
    var s := SakamotoSum(year, month, mday);
    assert SakamotoSum(year, month, mday + k) == s + k;
    ModAddSeven(s, k);
  }

  /** The next day has the next weekday. */
  lemma DowNextDay(year: int, month: int, mday: int)
    requires 1 <= month <= 12
    ensures Dow(year, month, mday + 1) == (Dow(year, month, mday) + 1) % 7
  {
    DowShift(year, month, mday, 1);
  }

  /** The weekday repeats every seven days. */
  lemma DowWeekPeriodic(year: int, month: int, mday: int)
    requires 1 <= month <= 12
    ensures Dow(year, month, mday + 7) == Dow(year, month, mday)
  {
    DowShift(year, month, mday, 7);
  }

  /** Two days at most six apart that share a weekday are the same day. */
  lemma DowWithinWeekInjective(year: int, month: int, a: int, b: int)
    requires 1 <= month <= 12
    requires a <= b <= a + 6
    requires Dow(year, month, a) == Dow(year, month, b)
    ensures a == b
  {
    DowShift(year, month, a, b - a);
  }

  /** y / k - (y - 1) / k is 1 when k divides y and 0 otherwise, for the
      divisors of Sakamoto's century correction. */
  lemma DivSteps(y: int)
    ensures y / 4 - (y - 1) / 4 == if y % 4 == 0 then 1 else 0
    ensures y / 100 - (y - 1) / 100 == if y % 100 == 0 then 1 else 0
    ensures y / 400 - (y - 1) / 400 == if y % 400 == 0 then 1 else 0
  {
  }

  /** Two numbers are congruent modulo 7 exactly when their difference is a
      multiple of 7. */
  lemma ModSevenEqual(a: int, b: int)
    ensures a % 7 == b % 7 <==> (a - b) % 7 == 0
  {
    assert a - b == 7 * (a / 7 - b / 7) + (a % 7 - b % 7);
  }

  /** The first of every month from February to December falls on the day
      after the last day of the month before, except that after February
      the congruence, which follows the Gregorian calendar, and MonthLen,
      which follows Leap, disagree on the century years not divisible
      by 400. */
  lemma DowMonthChain(year: int, month: int)
    requires 1 <= month <= 11
    ensures Dow(year, month + 1, 1) == (Dow(year, month, MonthLen(year, month)) + 1) % 7
      <==> (month != 2 || year % 100 != 0 || year % 400 == 0)
  {
    var last := MonthLen(year, month);
    DowShift(year, month, last, 1);
    var a := SakamotoSum(year, month + 1, 1);
    var b := SakamotoSum(year, month, last + 1);
    ModSevenEqual(a, b);
    if month == 2 {
      DowFebruaryGap(year);
      LeapVersusGregorian(year);
      assert a - b in {-29, -28, -27};
      assert (a - b == -28) <==> (year % 100 != 0 || year % 400 == 0);
    } else {
      DowRegularGap(year, month);
    }
  }

  /** Outside February, the congruence advances from the day after the last
      day of a month to the first of the next by a whole number of weeks. */
  lemma DowRegularGap(year: int, month: int)
    requires 1 <= month <= 11 && month != 2
    ensures SakamotoSum(year, month + 1, 1) - SakamotoSum(year, month, MonthLen(year, month) + 1)
      in {-28, -35}
  {
    var yy := year - (if month < 3 then 1 else 0);
    assert SakamotoSum(year, month + 1, 1) == yy + yy / 4 - yy / 100 + yy / 400 + DowTable[month] + 1;
    assert SakamotoSum(year, month, MonthLen(year, month) + 1)
      == yy + yy / 4 - yy / 100 + yy / 400 + DowTable[month - 1] + MonthLen(year, month) + 1;
  }

  /** From the end of February to 1 March the congruence advances by its own
      (Gregorian) leap day, while MonthLen has added Leap's. */
  lemma DowFebruaryGap(year: int)
    ensures SakamotoSum(year, 3, 1) - SakamotoSum(year, 2, MonthLen(year, 2) + 1)
      == (if GregorianLeap(year) then 1 else 0) - (if Leap(year) then 1 else 0) - 28
  {
    DivSteps(year);
    CenturyDivisibility(year);
  }

  /** New Year's Day follows the last day of the year before. */
  lemma DowYearChain(year: int)
    ensures Dow(year + 1, 1, 1) == (Dow(year, 12, 31) + 1) % 7
  {
    DowShift(year, 12, 31, 1);
    var a := SakamotoSum(year + 1, 1, 1);
    var b := SakamotoSum(year, 12, 32);
    assert a == b - 35;
    ModSevenEqual(a, b);
  }

  /** 1900 is a leap year for MonthLen but not for the congruence: the day
      after "29 February 1900" is not the weekday of 1 March 1900. */
  lemma DowCenturyGap()
    ensures MonthLen(1900, 2) == 29
    ensures Dow(1900, 3, 1) != (Dow(1900, 2, 29) + 1) % 7
  {
  }
}
