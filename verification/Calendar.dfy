/** The Gregorian calendar, counted out year by year and month by month: the reference for the
    conversions of LibcTime. Years are calendar years, months run from 0. */
module Calendar {

  predicate Leap(y: int) {
    y % 4 == 0 && (y % 100 != 0 || y % 400 == 0)
  }

  function YearDays(y: int): nat {
    if Leap(y) then 366 else 365
  }

  /** Days from the first of January 1970 to the first of January of year y. */
  function DaysBeforeYear(y: int): int
    decreases if y >= 1970 then y - 1970 else 1970 - y
  {
    if y == 1970 then 0
    else if y > 1970 then DaysBeforeYear(y - 1) + YearDays(y - 1)
    else DaysBeforeYear(y + 1) - YearDays(y)
  }

  function MonthDays(m: nat, leap: bool): nat {
    if m == 1 then (if leap then 29 else 28) else if m == 3 || m == 5 || m == 8 || m == 10 then 30 else 31
  }

  function DaysBeforeMonth(m: nat, leap: bool): nat {
    if m == 0 then 0 else DaysBeforeMonth(m - 1, leap) + MonthDays(m - 1, leap)
  }

  /** Broken-down time, with the year counted from 1900. */
  datatype Tm = Tm(sec: int, min: int, hour: int, mday: int, mon: int, year: int)

  predicate Normal(tm: Tm) {
    && 0 <= tm.sec < 60 && 0 <= tm.min < 60 && 0 <= tm.hour < 24 && 0 <= tm.mon < 12
    && 1 <= tm.mday <= MonthDays(tm.mon, Leap(tm.year + 1900))
  }

  /** Seconds since 1970. Months beyond the year count into other years, and the other fields may
      have any value. */
  function Seconds(tm: Tm): int {
    86400 * DayNumber(tm) + 3600 * tm.hour + 60 * tm.min + tm.sec
  }

  function DayNumber(tm: Tm): int {
    var y := tm.year + 1900 + tm.mon / 12;
    DaysBeforeYear(y) + DaysBeforeMonth(tm.mon % 12, Leap(y)) + tm.mday - 1
  }

  // ---------- closed forms ----------

  /** Leap years up to and including year n, from an arbitrary start. */
  function LeapYears(n: int): int {
    n / 4 - n / 100 + n / 400
  }

  lemma OneMoreYear(y: int)
    ensures LeapYears(y) - LeapYears(y - 1) == if Leap(y) then 1 else 0
  {
    assert y / 4 - (y - 1) / 4 == if y % 4 == 0 then 1 else 0;
    assert y / 100 - (y - 1) / 100 == if y % 100 == 0 then 1 else 0;
    assert y / 400 - (y - 1) / 400 == if y % 400 == 0 then 1 else 0;
    assert y % 100 == 0 ==> y % 4 == 0;
    assert y % 400 == 0 ==> y % 100 == 0;
  }

  /** Counting year by year comes to 365 days a year and one for each leap year. */
  lemma {:induction false} YearsClosed(y: int)
    ensures DaysBeforeYear(y) == 365 * (y - 1970) + LeapYears(y - 1) - LeapYears(1969)
    decreases if y >= 1970 then y - 1970 else 1970 - y
  {
    if y > 1970 {
      YearsClosed(y - 1);
      OneMoreYear(y - 1);
    } else if y < 1970 {
      YearsClosed(y + 1);
      OneMoreYear(y);
    }
  }

  lemma {:induction false} YearsAscend(y1: int, y2: int)
    requires y1 < y2
    ensures DaysBeforeYear(y1) + YearDays(y1) <= DaysBeforeYear(y2)
    decreases y2 - y1
  {
    NextYear(y2 - 1);
    if y1 < y2 - 1 {
      YearsAscend(y1, y2 - 1);
    }
  }

  lemma NextYear(y: int)
    ensures DaysBeforeYear(y + 1) == DaysBeforeYear(y) + YearDays(y)
  {
  }

  lemma MonthTable(leap: bool)
    ensures var d := if leap then 1 else 0;
            && DaysBeforeMonth(0, leap) == 0 && DaysBeforeMonth(1, leap) == 31 && DaysBeforeMonth(2, leap) == 59 + d
            && DaysBeforeMonth(3, leap) == 90 + d && DaysBeforeMonth(4, leap) == 120 + d && DaysBeforeMonth(5, leap) == 151 + d
            && DaysBeforeMonth(6, leap) == 181 + d && DaysBeforeMonth(7, leap) == 212 + d && DaysBeforeMonth(8, leap) == 243 + d
            && DaysBeforeMonth(9, leap) == 273 + d && DaysBeforeMonth(10, leap) == 304 + d && DaysBeforeMonth(11, leap) == 334 + d
            && DaysBeforeMonth(12, leap) == 365 + d
  {
    assert DaysBeforeMonth(1, leap) == 31;
    assert DaysBeforeMonth(3, leap) == DaysBeforeMonth(2, leap) + 31;
    assert DaysBeforeMonth(5, leap) == DaysBeforeMonth(4, leap) + 31;
    assert DaysBeforeMonth(7, leap) == DaysBeforeMonth(6, leap) + 31;
    assert DaysBeforeMonth(9, leap) == DaysBeforeMonth(8, leap) + 30;
    assert DaysBeforeMonth(11, leap) == DaysBeforeMonth(10, leap) + 30;
  }

  // ---------- a date is determined by its second ----------

  lemma {:induction false} MonthsAscend(m1: nat, m2: nat, leap: bool)
    requires m1 < m2
    ensures DaysBeforeMonth(m1, leap) + MonthDays(m1, leap) <= DaysBeforeMonth(m2, leap)
    decreases m2 - m1
  {
    if m1 < m2 - 1 {
      MonthsAscend(m1, m2 - 1, leap);
    }
  }

  lemma InItsYear(tm: Tm)
    requires Normal(tm)
    ensures var y := tm.year + 1900; DaysBeforeYear(y) <= DayNumber(tm) < DaysBeforeYear(y) + YearDays(y)
  {
    var leap := Leap(tm.year + 1900);
    MonthsAscend(tm.mon, 12, leap);
    MonthTable(leap);
  }

  lemma SameDay(tm1: Tm, tm2: Tm)
    requires Normal(tm1) && Normal(tm2) && DayNumber(tm1) == DayNumber(tm2)
    ensures tm1.year == tm2.year && tm1.mon == tm2.mon && tm1.mday == tm2.mday
  {
    hide DayNumber, DaysBeforeYear;
    InItsYear(tm1);
    InItsYear(tm2);
    if tm1.year < tm2.year {
      YearsAscend(tm1.year + 1900, tm2.year + 1900);
    } else if tm2.year < tm1.year {
      YearsAscend(tm2.year + 1900, tm1.year + 1900);
    }
    SameDayOfYear(tm1, tm2);
  }

  lemma SameDayOfYear(tm1: Tm, tm2: Tm)
    requires Normal(tm1) && Normal(tm2) && DayNumber(tm1) == DayNumber(tm2) && tm1.year == tm2.year
    ensures tm1.mon == tm2.mon && tm1.mday == tm2.mday
  {
    hide DaysBeforeYear, Leap;
    var leap := Leap(tm1.year + 1900);
    if tm1.mon < tm2.mon {
      MonthsAscend(tm1.mon, tm2.mon, leap);
    } else if tm2.mon < tm1.mon {
      MonthsAscend(tm2.mon, tm1.mon, leap);
    }
  }

  lemma SameTimeOfDay(d1: int, h1: int, m1: int, s1: int, d2: int, h2: int, m2: int, s2: int)
    requires 0 <= h1 < 24 && 0 <= m1 < 60 && 0 <= s1 < 60 && 0 <= h2 < 24 && 0 <= m2 < 60 && 0 <= s2 < 60
    requires 86400 * d1 + 3600 * h1 + 60 * m1 + s1 == 86400 * d2 + 3600 * h2 + 60 * m2 + s2
    ensures d1 == d2 && h1 == h2 && m1 == m2 && s1 == s2
  {
  }

  /** No two normalised dates are the same second. */
  lemma OneDatePerSecond(tm1: Tm, tm2: Tm)
    requires Normal(tm1) && Normal(tm2) && Seconds(tm1) == Seconds(tm2)
    ensures tm1 == tm2
  {
    hide DayNumber;
    SameTimeOfDay(DayNumber(tm1), tm1.hour, tm1.min, tm1.sec, DayNumber(tm2), tm2.hour, tm2.min, tm2.sec);
    SameDay(tm1, tm2);
  }
}
