/** The Gregorian calendar arithmetic behind the time grids, standing in
    for JavaScript's `Date`: leap years, month lengths and a day number per
    calendar date. Months are 1-based here (JavaScript's are 0-based). A day
    past the end of its month rolls into the next month, as `new Date(y, m,
    d)` does, so February 29 of a common year is March 1. */
module Calendar {

  /** Gregorian leap years: divisible by 4 but not by 100, or by 400. */
  predicate IsLeap(y: int) {
    (y % 4 == 0 && y % 100 != 0) || y % 400 == 0
  }

  function DaysInYear(y: int): (n: nat)
    ensures n == 366 <==> IsLeap(y)
    ensures n == 365 <==> !IsLeap(y)
  {
    if IsLeap(y) then 366 else 365
  }

  predicate ValidMonth(m: int) {
    1 <= m <= 12
  }

  function MonthLength(y: int, m: int): nat
    requires ValidMonth(m)
  {
    if m == 2 then (if IsLeap(y) then 29 else 28)
    else if m == 4 || m == 6 || m == 9 || m == 11 then 30
    else 31
  }

  /** Days before month `m` in a common year (13 stands for the year end). */
  function CommonDaysBefore(m: int): nat
    requires 1 <= m <= 13
  {
    if m == 1 then 0 else if m == 2 then 31 else if m == 3 then 59
    else if m == 4 then 90 else if m == 5 then 120 else if m == 6 then 151
    else if m == 7 then 181 else if m == 8 then 212 else if m == 9 then 243
    else if m == 10 then 273 else if m == 11 then 304 else if m == 12 then 334
    else 365
  }

  /** Days in the months of `y` before month `m`: the common-year table,
      one more after February of a leap year. */
  function DaysBeforeMonth(y: int, m: int): nat
    requires 1 <= m <= 13
  {
    CommonDaysBefore(m) + (if m > 2 && IsLeap(y) then 1 else 0)
  }

  /** The table agrees with the month lengths: each month starts where
      the previous one ends. */
  lemma MonthStartsFollowLengths(y: int, m: int)
    requires ValidMonth(m)
    ensures DaysBeforeMonth(y, m + 1) == DaysBeforeMonth(y, m) + MonthLength(y, m)
  {
  }

  /** The twelve month lengths add up to the year's length: the leap rule
      and the February rule agree. */
  lemma MonthsFillYear(y: int)
    ensures DaysBeforeMonth(y, 13) == DaysInYear(y)
  {
  }

  predicate ValidDate(y: int, m: int, d: int) {
    ValidMonth(m) && 1 <= d <= MonthLength(y, m)
  }

  /** A date `new Date(y, m - 1, d)` accepts without rolling past the year
      end: any month and a day of at most 29 in February, 31 otherwise. */
  predicate InYearDate(m: int, d: int) {
    ValidMonth(m) && 1 <= d && (if m == 2 then d <= 29 else d <= 31)
  }

  lemma ValidDateInYear(y: int, m: int, d: int)
    requires ValidDate(y, m, d)
    ensures InYearDate(m, d)
  {
  }

  /** The leap years before `y`, counted from a fixed origin. */
  function LeapsBefore(y: int): int {
    (y - 1) / 4 - (y - 1) / 100 + (y - 1) / 400
  }

  /** One more year passes one more multiple of 4, 100 or 400 exactly
      when the year is one. */
  lemma DivSteps(y: int)
    ensures y / 4 - (y - 1) / 4 == if y % 4 == 0 then 1 else 0
    ensures y / 100 - (y - 1) / 100 == if y % 100 == 0 then 1 else 0
    ensures y / 400 - (y - 1) / 400 == if y % 400 == 0 then 1 else 0
  {
  }

  lemma Multiples(y: int)
    ensures y % 400 == 0 ==> y % 100 == 0
    ensures y % 100 == 0 ==> y % 4 == 0
  {
    var q, r := y / 400, y % 400;
    assert y == 400 * q + r;
    if r == 0 {
      assert y == 100 * (4 * q);
    }
    var p, t := y / 100, y % 100;
    assert y == 100 * p + t;
    if t == 0 {
      assert y == 4 * (25 * p);
    }
  }

  lemma LeapStep(y: int)
    ensures LeapsBefore(y + 1) - LeapsBefore(y) == if IsLeap(y) then 1 else 0
  {
    DivSteps(y);
    Multiples(y);
  }

  /** Days from a fixed origin to the midnight that starts the date. */
  function DayNumber(y: int, m: int, d: int): int
    requires ValidMonth(m)
  {
    365 * (y - 1) + LeapsBefore(y) + DaysBeforeMonth(y, m) + d - 1
  }

  /** Consecutive new years are a year's length apart. */
  lemma NewYearStep(y: int)
    ensures DayNumber(y + 1, 1, 1) - DayNumber(y, 1, 1) == DaysInYear(y)
  {
    LeapStep(y);
  }

  /** A date that does not roll past the year end lies within its year. */
  lemma WithinYear(y: int, m: int, d: int)
    requires InYearDate(m, d)
    ensures DayNumber(y, 1, 1) <= DayNumber(y, m, d) < DayNumber(y + 1, 1, 1)
  {
    NewYearStep(y);
  }

  /** The same day and month a year later is a year's length later, the
      length of the year holding the earlier one's February when that comes
      first and of the next year otherwise. */
  lemma AnniversaryStep(y: int, m: int, d: int)
    requires InYearDate(m, d)
    ensures var gap := DayNumber(y + 1, m, d) - DayNumber(y, m, d);
            gap == (if m <= 2 then DaysInYear(y) else DaysInYear(y + 1))
  {
    NewYearStep(y);
    MonthsFillYear(y);
    MonthsFillYear(y + 1);
  }

  /** The 1-based day of the year, as the elapsed whole days since the last
      day of the previous year. */
  function DayOfYear(y: int, m: int, d: int): (n: int)
    requires ValidDate(y, m, d)
    ensures 1 <= n <= DaysInYear(y)
    ensures n == DayNumber(y, m, d) - DayNumber(y, 1, 1) + 1
  {
    MonthsFillYear(y);
    DaysBeforeMonth(y, m) + d
  }

  /** January 1 is day 1 and December 31 is the last day. */
  lemma DayOfYearEnds(y: int)
    ensures DayOfYear(y, 1, 1) == 1
    ensures DayOfYear(y, 12, 31) == DaysInYear(y)
  {
  }
}
