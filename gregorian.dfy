/**
 * The proleptic Gregorian calendar as Python's `datetime` computes it:
 * days in a month, the ordinal day number (`date.toordinal()`) and the
 * weekday with Monday as 0 (`date.weekday()`).
 */
module Gregorian {

  const MinYear := 1
  const MaxYear := 9999

  predicate IsLeap(y: int) {
    y % 4 == 0 && (y % 100 != 0 || y % 400 == 0)
  }

  function DaysInMonth(y: int, m: int): (n: int)
    requires 1 <= m <= 12
    ensures 28 <= n <= 31
  {
    if m == 2 then (if IsLeap(y) then 29 else 28)
    else if m == 4 || m == 6 || m == 9 || m == 11 then 30
    else 31
  }

  function DaysInYear(y: int): int {
    if IsLeap(y) then 366 else 365
  }

  /** `datetime(y, m, d)` does not raise. */
  predicate ValidDate(y: int, m: int, d: int) {
    MinYear <= y <= MaxYear && 1 <= m <= 12 && 1 <= d <= DaysInMonth(y, m)
  }

  /** Python's `_DAYS_BEFORE_MONTH` table, index 0 unused. */
  const DaysBeforeMonthTable: seq<int> := [-1, 0, 31, 59, 90, 120, 151, 181, 212, 243, 273, 304, 334]

  function DaysBeforeMonth(y: int, m: int): int
    requires 1 <= m <= 12
  {
    DaysBeforeMonthTable[m] + (if m > 2 && IsLeap(y) then 1 else 0)
  }

  function DaysBeforeYear(y: int): int
    requires y >= 1
  {
    var p := y - 1;
    p * 365 + p / 4 - p / 100 + p / 400
  }

  /** Python's `date(y, m, d).toordinal()`: 0001-01-01 is day 1. */
  function Ordinal(y: int, m: int, d: int): int
    requires y >= 1 && 1 <= m <= 12
  {
    DaysBeforeYear(y) + DaysBeforeMonth(y, m) + d
  }

  /** Python's `date(y, m, d).weekday()`: Monday is 0 and Sunday is 6. */
  function Weekday(y: int, m: int, d: int): (w: int)
    requires y >= 1 && 1 <= m <= 12
    ensures 0 <= w < 7
  {
    (Ordinal(y, m, d) + 6) % 7
  }

  /** The day after a valid date. */
  function NextDay(y: int, m: int, d: int): (int, int, int)
    requires ValidDate(y, m, d)
  {
    if d < DaysInMonth(y, m) then (y, m, d + 1)
    else if m < 12 then (y, m + 1, 1)
    else (y + 1, 1, 1)
  }

  /** The month table agrees with the month lengths. */
  lemma DaysBeforeNextMonth(y: int, m: int)
    requires 1 <= m < 12
    ensures DaysBeforeMonth(y, m + 1) == DaysBeforeMonth(y, m) + DaysInMonth(y, m)
  {
  }

  /** The year formula counts exactly the days of the year before. */
  lemma DaysBeforeNextYear(y: int)
    requires y >= 1
    ensures DaysBeforeYear(y + 1) == DaysBeforeYear(y) + DaysInYear(y)
  {
    var p := y - 1;
    assert (p + 1) / 4 == p / 4 + (if y % 4 == 0 then 1 else 0);
    assert (p + 1) / 100 == p / 100 + (if y % 100 == 0 then 1 else 0);
    assert (p + 1) / 400 == p / 400 + (if y % 400 == 0 then 1 else 0);
  }

  /** Consecutive valid dates have consecutive ordinals: the ordinal is a day count. */
  lemma NextDayOrdinal(y: int, m: int, d: int)
    requires ValidDate(y, m, d) && y < MaxYear
    ensures ValidDate(NextDay(y, m, d).0, NextDay(y, m, d).1, NextDay(y, m, d).2)
    ensures Ordinal(NextDay(y, m, d).0, NextDay(y, m, d).1, NextDay(y, m, d).2) == Ordinal(y, m, d) + 1
  {
    if d == DaysInMonth(y, m) {
      if m < 12 {
        DaysBeforeNextMonth(y, m);
      } else {
        DaysBeforeNextYear(y);
        assert DaysBeforeMonth(y, 12) + 31 == DaysInYear(y);
      }
    }
  }

  /** The weekday of the next day is the following weekday, Sunday wrapping to Monday. */
  lemma NextDayWeekday(y: int, m: int, d: int)
    requires ValidDate(y, m, d) && y < MaxYear
    ensures Weekday(NextDay(y, m, d).0, NextDay(y, m, d).1, NextDay(y, m, d).2) == (Weekday(y, m, d) + 1) % 7
  {
    NextDayOrdinal(y, m, d);
    var (y2, m2, d2) := NextDay(y, m, d);
    var o := Ordinal(y, m, d);
    assert Ordinal(y2, m2, d2) == o + 1;
    WeekdayStep(o);
  }

  lemma WeekdayStep(o: int)
    ensures (o + 1 + 6) % 7 == ((o + 6) % 7 + 1) % 7
  {
    var r := (o + 6) % 7;
    assert o + 6 == 7 * ((o + 6) / 7) + r;
  }

  /** 1 January 1970 was a Thursday. */
  lemma EpochWeekday()
    ensures Weekday(1970, 1, 1) == 3
  {
  }
}
