/**
  Naive UTC instants as Python's `datetime.datetime` holds them: a proleptic Gregorian
  calendar record with microseconds, ordered field by field, together with a count of
  microseconds since 0001-01-01 00:00 that subtraction of two datetimes is based on.
*/
module Instants {

  datatype DateTime = DateTime(
    year: int, month: int, day: int,
    hour: int, minute: int, second: int, microsecond: int)

  predicate IsLeapYear(y: int) {
    y % 4 == 0 && (y % 100 != 0 || y % 400 == 0)
  }

  function DaysInMonth(y: int, m: int): (n: int)
    requires 1 <= m <= 12
    ensures 28 <= n <= 31
  {
    if m == 2 then (if IsLeapYear(y) then 29 else 28)
    else if m == 4 || m == 6 || m == 9 || m == 11 then 30
    else 31
  }

  function DaysInYear(y: int): int {
    if IsLeapYear(y) then 366 else 365
  }

  /** The values `datetime(year, month, day, hour, minute, second, microsecond)` accepts. */
  predicate Valid(t: DateTime) {
    && 1 <= t.year <= 9999
    && 1 <= t.month <= 12
    && 1 <= t.day <= DaysInMonth(t.year, t.month)
    && 0 <= t.hour < 24
    && 0 <= t.minute < 60
    && 0 <= t.second < 60
    && 0 <= t.microsecond < 1000000
  }

  /** Python's `a < b` on naive datetimes: the fields compared in order, year first. */
  predicate Before(a: DateTime, b: DateTime) {
    || a.year < b.year
    || (a.year == b.year && a.month < b.month)
    || (a.year == b.year && a.month == b.month && a.day < b.day)
    || (a.year == b.year && a.month == b.month && a.day == b.day && TimeBefore(a, b))
  }

  predicate TimeBefore(a: DateTime, b: DateTime) {
    || a.hour < b.hour
    || (a.hour == b.hour && a.minute < b.minute)
    || (a.hour == b.hour && a.minute == b.minute && a.second < b.second)
    || (a.hour == b.hour && a.minute == b.minute && a.second == b.second
        && a.microsecond < b.microsecond)
  }

  function DaysBeforeYear(y: int): nat
    requires y >= 1
  {
    if y == 1 then 0 else DaysBeforeYear(y - 1) + DaysInYear(y - 1)
  }

  function DaysBeforeMonth(y: int, m: int): nat
    requires 1 <= m <= 13
  {
    if m == 1 then 0 else DaysBeforeMonth(y, m - 1) + DaysInMonth(y, m - 1)
  }

  /** Days from 0001-01-01 to the date of `t`. */
  function DayNumber(t: DateTime): nat
    requires Valid(t)
  {
    DaysBeforeYear(t.year) + DaysBeforeMonth(t.year, t.month) + t.day - 1
  }

  function TimeOfDayMicros(t: DateTime): (n: int)
    requires Valid(t)
    ensures 0 <= n < MicrosPerDay
  {
    ((t.hour * 60 + t.minute) * 60 + t.second) * 1000000 + t.microsecond
  }

  const MicrosPerDay: int := 86400000000

  /** Microseconds from 0001-01-01 00:00:00 to `t`; `b - a` in Python is the difference of these. */
  function EpochMicros(t: DateTime): int
    requires Valid(t)
  {
    DayNumber(t) * MicrosPerDay + TimeOfDayMicros(t)
  }

  lemma {:induction false} DaysBeforeMonthGrows(y: int, m1: int, m2: int)
    requires 1 <= m1 < m2 <= 13
    ensures DaysBeforeMonth(y, m1) + DaysInMonth(y, m1) <= DaysBeforeMonth(y, m2)
    decreases m2
  {
    if m1 < m2 - 1 {
      DaysBeforeMonthGrows(y, m1, m2 - 1);
    }
  }

  lemma DaysBeforeMonthFullYear(y: int)
    ensures DaysBeforeMonth(y, 13) == DaysInYear(y)
  {
    var feb := DaysInMonth(y, 2);
    assert DaysBeforeMonth(y, 2) == 31;
    assert DaysBeforeMonth(y, 3) == 31 + feb;
    assert DaysBeforeMonth(y, 4) == 62 + feb;
    assert DaysBeforeMonth(y, 5) == 92 + feb;
    assert DaysBeforeMonth(y, 6) == 123 + feb;
    assert DaysBeforeMonth(y, 7) == 153 + feb;
    assert DaysBeforeMonth(y, 8) == 184 + feb;
    assert DaysBeforeMonth(y, 9) == 215 + feb;
    assert DaysBeforeMonth(y, 10) == 245 + feb;
    assert DaysBeforeMonth(y, 11) == 276 + feb;
    assert DaysBeforeMonth(y, 12) == 306 + feb;
  }

  lemma {:induction false} DaysBeforeYearGrows(y1: int, y2: int)
    requires 1 <= y1 < y2
    ensures DaysBeforeYear(y1) + DaysInYear(y1) <= DaysBeforeYear(y2)
    decreases y2
  {
    if y1 < y2 - 1 {
      DaysBeforeYearGrows(y1, y2 - 1);
    }
  }

  /** The day of the year never reaches the next year's first day. */
  lemma DayWithinYear(t: DateTime)
    requires Valid(t)
    ensures DaysBeforeMonth(t.year, t.month) + t.day - 1 < DaysInYear(t.year)
  {
    DaysBeforeMonthFullYear(t.year);
    if t.month < 12 {
      DaysBeforeMonthGrows(t.year, t.month, 13);
    }
  }

  lemma DateBeforeDayNumber(a: DateTime, b: DateTime)
    requires Valid(a) && Valid(b)
    requires Before(a, b) && !(a.year == b.year && a.month == b.month && a.day == b.day)
    ensures DayNumber(a) < DayNumber(b)
  {
    if a.year < b.year {
      DayWithinYear(a);
      DaysBeforeYearGrows(a.year, b.year);
    } else if a.month < b.month {
      DaysBeforeMonthGrows(a.year, a.month, b.month);
    }
  }

  lemma {:induction false} BeforeImpliesEarlier(a: DateTime, b: DateTime)
    requires Valid(a) && Valid(b) && Before(a, b)
    ensures EpochMicros(a) < EpochMicros(b)
  {
    if a.year == b.year && a.month == b.month && a.day == b.day {
      assert DayNumber(a) == DayNumber(b);
      assert TimeBefore(a, b);
      assert TimeOfDayMicros(a) < TimeOfDayMicros(b);
    } else {
      DateBeforeDayNumber(a, b);
      assert (DayNumber(a) + 1) * MicrosPerDay <= DayNumber(b) * MicrosPerDay;
    }
  }

  /**
    Python's ordering of datetimes agrees with the order of the instants they denote:
    `a < b` exactly when `b - a` is positive.
  */
  lemma BeforeIffEarlier(a: DateTime, b: DateTime)
    requires Valid(a) && Valid(b)
    ensures Before(a, b) <==> EpochMicros(a) < EpochMicros(b)
  {
    if Before(a, b) {
      BeforeImpliesEarlier(a, b);
    } else if a != b {
      assert Before(b, a);
      BeforeImpliesEarlier(b, a);
    }
  }

  /** Two valid datetimes denoting the same instant are the same record. */
  lemma EpochMicrosInjective(a: DateTime, b: DateTime)
    requires Valid(a) && Valid(b) && EpochMicros(a) == EpochMicros(b)
    ensures a == b
  {
    if a != b {
      if Before(a, b) {
        BeforeImpliesEarlier(a, b);
      } else {
        assert Before(b, a);
        BeforeImpliesEarlier(b, a);
      }
    }
  }
}
