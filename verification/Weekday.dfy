/** The closed form for the day of the week (lib/time.c) against counting days from 1 January of year 1. */
module Weekday {
  import opened Common

  datatype Date = Date(year: nat, month: nat, day: nat)

  /** year_is_leap_year. */
  predicate Leap(year: nat) {
    year % 4 == 0 && (year % 100 != 0 || year % 400 == 0)
  }

  /** month_get_day_count. */
  function MonthDays(month: nat, leap: bool): nat
    requires 1 <= month <= 12
  {
    if month == 2 then (if leap then 29 else 28)
    else if month == 4 || month == 6 || month == 9 || month == 11 then 30
    else 31
  }

  /** year_get_day_count. */
  function YearDays(year: nat): nat {
    if Leap(year) then 366 else 365
  }

  predicate ValidDate(d: Date) {
    d.year >= 1 && 1 <= d.month <= 12 && 1 <= d.day <= MonthDays(d.month, Leap(d.year))
  }

  /** Days in the years 1 up to and without `year`. */
  function YearsBefore(year: nat): nat
    requires year >= 1
  {
    if year == 1 then 0 else YearsBefore(year - 1) + YearDays(year - 1)
  }

  function MonthsBefore(month: nat, leap: bool): nat
    requires 1 <= month <= 12
  {
    if month == 1 then 0 else MonthsBefore(month - 1, leap) + MonthDays(month - 1, leap)
  }

  /** Days since 1 January of year 1. */
  function DayNumber(d: Date): nat
    requires ValidDate(d)
  {
    YearsBefore(d.year) + MonthsBefore(d.month, Leap(d.year)) + d.day - 1
  }

  /** The day after: the next day of the month, the next month or the next year. */
  function Tomorrow(d: Date): (r: Date)
    requires ValidDate(d)
    ensures ValidDate(r)
  {
    if d.day < MonthDays(d.month, Leap(d.year)) then d.(day := d.day + 1)
    else if d.month < 12 then Date(d.year, d.month + 1, 1)
    else Date(d.year + 1, 1, 1)
  }

  /** Day numbers count days one by one. */
  lemma TomorrowIsNext(d: Date)
    requires ValidDate(d)
    ensures DayNumber(Tomorrow(d)) == DayNumber(d) + 1 && DayNumber(Date(1, 1, 1)) == 0
  {
    hide MonthsBefore, YearsBefore, Leap, MonthDays;
    FirstDay();
    if d.day == MonthDays(d.month, Leap(d.year)) {
      if d.month < 12 {
        NextMonth(d.month, Leap(d.year));
      } else {
        NextYear(d.year);
      }
    }
  }

  lemma FirstDay()
    ensures YearsBefore(1) == 0 && forall leap :: MonthsBefore(1, leap) == 0
  {
  }

  lemma NextMonth(month: nat, leap: bool)
    requires 1 <= month < 12
    ensures MonthsBefore(month + 1, leap) == MonthsBefore(month, leap) + MonthDays(month, leap)
  {
  }

  lemma NextYear(year: nat)
    requires year >= 1
    ensures YearsBefore(year + 1) == YearsBefore(year) + MonthsBefore(12, Leap(year)) + MonthDays(12, Leap(year))
  {
    hide MonthsBefore, YearsBefore;
    MonthsAre(12, Leap(year));
    YearsStep(year);
  }

  lemma YearsStep(year: nat)
    requires year >= 1
    ensures YearsBefore(year + 1) == YearsBefore(year) + YearDays(year)
  {
  }

  const BEFORE: seq<nat> := [0, 31, 59, 90, 120, 151, 181, 212, 243, 273, 304, 334]

  lemma {:induction false} MonthsAre(month: nat, leap: bool)
    requires 1 <= month <= 12
    ensures MonthsBefore(month, leap) == BEFORE[month - 1] + if leap && month > 2 then 1 else 0
  {
    if month > 1 {
      MonthsAre(month - 1, leap);
    }
  }

  const LETTERS: seq<nat> := [98, 101, 100, 61, 112, 101, 110, 43, 109, 97, 100, 46]  // "bed=pen+mad."

  /** The sum that the closed form takes modulo 7. */
  function Sum(d: Date): nat
    requires ValidDate(d)
  {
    var y := if d.month < 3 then d.year - 1 else d.year;
    y + y / 4 - y / 100 + y / 400 + LETTERS[d.month - 1] + d.day
  }

  /** day_of_month_to_weekday, in 64 bits. */
  function ClosedForm(d: Date): nat
    requires ValidDate(d)
  {
    Sum(d) % POW64 % 7
  }

  /** 1 January of year 1 is a Monday, which has number 1. */
  function Counted(d: Date): nat
    requires ValidDate(d)
  {
    (DayNumber(d) + 1) % 7
  }

  /** Leap days up to and with a year. */
  function LeapDays(year: nat): nat {
    year / 4 - year / 100 + year / 400
  }

  lemma LeapStep(year: nat)
    requires year >= 1
    ensures LeapDays(year) == LeapDays(year - 1) + if Leap(year) then 1 else 0
  {
    Step4(year);
    Step100(year);
    Step400(year);
    Multiples(year);
  }

  lemma Step4(y: nat)
    requires y >= 1
    ensures y / 4 == (y - 1) / 4 + if y % 4 == 0 then 1 else 0
  {
  }

  lemma Step100(y: nat)
    requires y >= 1
    ensures y / 100 == (y - 1) / 100 + if y % 100 == 0 then 1 else 0
  {
  }

  lemma Step400(y: nat)
    requires y >= 1
    ensures y / 400 == (y - 1) / 400 + if y % 400 == 0 then 1 else 0
  {
  }

  lemma Multiples(y: nat)
    ensures y % 400 == 0 ==> y % 100 == 0
    ensures y % 100 == 0 ==> y % 4 == 0
  {
    assert y % 400 == 0 ==> y == 100 * (4 * (y / 400));
    assert y % 100 == 0 ==> y == 4 * (25 * (y / 100));
  }

  lemma {:induction false} YearsAre(year: nat)
    requires year >= 1
    ensures YearsBefore(year) == 365 * (year - 1) + LeapDays(year - 1)
  {
    if year > 1 {
      YearsAre(year - 1);
      LeapStep(year - 1);
    }
  }

  const WEEKS: seq<int> := [-14, -10, -6, 4, 1, 7, 10, 24, 19, 25, 29, 41]

  /** The letters stand for the days before each month, up to whole weeks. */
  lemma LettersAre(month: nat, leap: bool)
    requires 1 <= month <= 12
    ensures MonthsBefore(month, leap) ==
            LETTERS[month - 1] + (if month < 3 then 0 else 1 + if leap then 1 else 0) + 7 * WEEKS[month - 1]
  {
    MonthsAre(month, leap);
  }

  lemma WeeksApart(a: nat, b: nat, weeks: int)
    requires a == b + 7 * weeks
    ensures a % 7 == b % 7
  {
  }

  /** Without the 64-bit wrap the sum is the count. */
  lemma SumCounts(d: Date)
    requires ValidDate(d)
    ensures Sum(d) % 7 == Counted(d)
  {
    var leap, y := Leap(d.year), d.year - 1;
    YearsAre(d.year);
    LeapStep(d.year);
    LettersAre(d.month, leap);
    WeeksApart(DayNumber(d) + 1, Sum(d), 52 * y + WEEKS[d.month - 1]) by {
      hide Leap, MonthsBefore, YearsBefore, MonthDays;
      SumIs(d);
    }
  }

  lemma SumIs(d: Date)
    requires ValidDate(d)
    ensures var y := if d.month < 3 then d.year - 1 else d.year;
            Sum(d) == y + LeapDays(y) + LETTERS[d.month - 1] + d.day
  {
  }

  /** The closed form gives the day of the week exactly while its sum fits 64 bits. */
  lemma ClosedFormCounts(d: Date)
    requires ValidDate(d) && d.year < POW64
    ensures ClosedForm(d) == Counted(d) <==> Sum(d) < POW64
  {
    SumCounts(d);
    SumBelow(d);
    Wrapped(Sum(d));
    hide Sum, Counted;
  }

  lemma SumBelow(d: Date)
    requires ValidDate(d) && d.year < POW64
    ensures Sum(d) < 2 * POW64
  {
    var y := if d.month < 3 then d.year - 1 else d.year;
    assert LETTERS[d.month - 1] <= 112 && d.day <= 31;
  }

  lemma Wrapped(s: nat)
    requires s < 2 * POW64
    ensures s % POW64 % 7 == s % 7 <==> s < POW64
  {
    if s >= POW64 {
      var t := s - POW64;
      assert s % POW64 == t;
      assert s == t + 2 + 7 * 2635249153387078802;
      WeeksApart(s, t + 2, 2635249153387078802);
    }
  }

  /** From one day to the next, the day of the week moves on by one. */
  lemma ClosedFormSteps(d: Date)
    requires ValidDate(d) && Sum(d) < POW64 && Sum(Tomorrow(d)) < POW64
    ensures ClosedForm(Tomorrow(d)) == (ClosedForm(d) + 1) % 7
  {
    hide Sum, DayNumber, Tomorrow, ValidDate, ClosedForm;
    Unwrapped(d);
    Unwrapped(Tomorrow(d));
    TomorrowIsNext(d);
    NextWeekday(DayNumber(d) + 1);
  }

  lemma Unwrapped(d: Date)
    requires ValidDate(d) && Sum(d) < POW64
    ensures ClosedForm(d) == Counted(d)
  {
    SumCounts(d);
    hide Sum, DayNumber;
    Wrapped(Sum(d));
  }

  lemma NextWeekday(n: nat)
    ensures (n + 1) % 7 == (n % 7 + 1) % 7
  {
  }

  /** In the last year that 64 bits hold, the sum does not fit and the closed form is wrong. */
  lemma WrongInTheEnd() returns (d: Date)
    ensures ValidDate(d) && d.year == POW64 - 1 && ClosedForm(d) != Counted(d)
  {
    d := Date(POW64 - 1, 3, 1);
    ClosedFormCounts(d);
    hide Counted, ClosedForm;
    assert Sum(d) >= POW64;
  }
}
