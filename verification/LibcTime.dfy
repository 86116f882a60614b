/** Conversion between seconds and broken-down time, with the program's truncating division. */
module LibcTime {
  import opened Arithmetic
  import opened Calendar

  const INT_MIN := -2147483648
  const INT_MAX := 2147483647

  /** The first of March 2000, just behind a leap day that only every fourth century has. */
  const LEAPOCH := 946684800 + 86400 * (31 + 29)
  const DAYS_PER_400Y := 365 * 400 + 97
  const DAYS_PER_100Y := 365 * 100 + 24
  const DAYS_PER_4Y := 365 * 4 + 1

  /** The correction after a truncating division: down to the floor. */
  lemma FloorOf(a: int, b: int)
    requires b > 0
    ensures Rem(a, b) < 0 ==> Rem(a, b) + b == a % b && Quot(a, b) - 1 == a / b
    ensures Rem(a, b) >= 0 ==> Rem(a, b) == a % b && Quot(a, b) == a / b
  {
    var q, r := Quot(a, b), Rem(a, b);
    if a < 0 {
      assert -a == -a / b * b + -a % b;
    }
    assert -b < r < b && a == q * b + r;
    if r < 0 {
      Unique(a, b, q - 1, r + b);
    } else {
      Unique(a, b, q, r);
    }
  }

  // ---------- from dates to seconds ----------

  lemma CycleLeapYears(cycles: int, rem: int)
    requires 0 <= rem < 400
    ensures LeapYears(1999 + 400 * cycles + rem)
            == 484 + 97 * cycles + if rem == 0 then 0 else 1 + (rem - 1) / 4 - (rem - 1) / 100
    ensures LeapYears(1969) == 477
  {
    var n := 1999 + 400 * cycles + rem;
    assert n / 4 == 500 + 100 * cycles + (rem - 1) / 4;
    assert n / 100 == 20 + 4 * cycles + (rem - 1) / 100;
    assert n / 400 == 5 + cycles + (rem - 1) / 400;
  }

  lemma CycleLeap(cycles: int, rem: int)
    requires 0 <= rem < 400
    ensures Leap(2000 + 400 * cycles + rem) <==> rem % 4 == 0 && (rem % 100 != 0 || rem == 0)
  {
    var y := 2000 + 400 * cycles + rem;
    Unique(y, 4, 500 + 100 * cycles + rem / 4, rem % 4);
    Unique(y, 100, 20 + 4 * cycles + rem / 100, rem % 100);
    Unique(y, 400, 5 + cycles, rem);
  }

  /** The first day of a year, by its cycle of 400 years and its place in the cycle. */
  lemma CycleDays(cycles: int, rem: int)
    requires 0 <= rem < 400
    ensures DaysBeforeYear(2000 + 400 * cycles + rem)
            == 10957 + 365 * (400 * cycles + rem) + 97 * cycles + if rem == 0 then 0 else 1 + (rem - 1) / 4 - (rem - 1) / 100
    ensures Leap(2000 + 400 * cycles + rem) <==> rem % 4 == 0 && (rem % 100 != 0 || rem == 0)
  {
    hide LeapYears, Leap, DaysBeforeYear;
    YearsClosed(2000 + 400 * cycles + rem);
    CycleLeapYears(cycles, rem);
    CycleLeap(cycles, rem);
  }

  /** The leap years up to a place in the cycle, counted by centuries. */
  lemma CenturyLeaps(century: int, rem: int)
    requires 0 <= century < 4 && 0 <= rem < 100 && 0 < 100 * century + rem
    ensures var place := 100 * century + rem;
            && (place - 1) / 4 - (place - 1) / 100
               == 24 * century + (if rem == 0 then 0 else rem / 4 - (if rem % 4 == 0 then 1 else 0))
            && (place % 4 == 0 && place % 100 != 0 <==> rem != 0 && rem % 4 == 0)
  {
    var place := 100 * century + rem;
    if rem == 0 {
      Unique(place - 1, 4, 25 * century - 1, 3);
      Unique(place - 1, 100, century - 1, 99);
    } else {
      Unique(place - 1, 4, 25 * century + (rem - 1) / 4, (rem - 1) % 4);
      Unique(place - 1, 100, century, rem - 1);
    }
    Unique(place, 4, 25 * century + rem / 4, rem % 4);
    Unique(place, 100, century, rem);
  }

  /** Whether a place in the cycle of 400 years is a leap year, its century, and the leap years
      before it in the century, itself included. */
  method PlaceInCycle(place: int) returns (isLeap: bool, centuries: int, leaps: int)
    requires 0 <= place < 400
    ensures isLeap <==> place % 4 == 0 && (place % 100 != 0 || place == 0)
    ensures 24 * centuries + leaps + 1 - (if isLeap then 1 else 0)
            == if place == 0 then 0 else 1 + (place - 1) / 4 - (place - 1) / 100
  {
    var rem := place;
    if rem == 0 {
      return true, 0, 0;
    }
    if rem >= 200 {
      if rem >= 300 {
        centuries, rem := 3, rem - 300;
      } else {
        centuries, rem := 2, rem - 200;
      }
    } else if rem >= 100 {
      centuries, rem := 1, rem - 100;
    } else {
      centuries := 0;
    }
    CenturyLeaps(centuries, rem);
    if rem == 0 {
      isLeap, leaps := false, 0;
    } else {
      leaps := rem / 4;
      rem := rem % 4;
      isLeap := rem == 0;
    }
  }

  /** Seconds from 1970 to the start of a year counted from 1900, and whether it is a leap year. */
  method YearToSecs(year: int) returns (r: int, isLeap: bool)
    ensures r == 86400 * DaysBeforeYear(year + 1900) && isLeap == Leap(year + 1900)
  {
    hide DaysBeforeYear, Leap, Quot, Rem;
    FloorOf(year - 100, 400);
    var cycles, rem := Quot(year - 100, 400), Rem(year - 100, 400);
    if rem < 0 {
      cycles := cycles - 1;
      rem := rem + 400;
    }
    CycleDays(cycles, rem);
    var centuries, leaps;
    isLeap, centuries, leaps := PlaceInCycle(rem);
    leaps := leaps + 97 * cycles + 24 * centuries - if isLeap then 1 else 0;
    r := (year - 100) * 31536000 + leaps * 86400 + 946684800 + 86400;
  }

  const SECS_THROUGH_MONTH: seq<int> := [
    0, 31 * 86400, 59 * 86400, 90 * 86400, 120 * 86400, 151 * 86400,
    181 * 86400, 212 * 86400, 243 * 86400, 273 * 86400, 304 * 86400, 334 * 86400
  ]

  function MonthToSecs(month: int, isLeap: bool): (t: int)
    requires 0 <= month < 12
    ensures t == 86400 * DaysBeforeMonth(month, isLeap)
  {
    MonthTable(isLeap);
    SECS_THROUGH_MONTH[month] + if isLeap && month >= 2 then 86400 else 0
  }

  /** Every date, normalised or not, is converted to the second the calendar counts. */
  method TmToSecs(tm: Tm) returns (t: int)
    ensures t == Seconds(tm)
  {
    hide DaysBeforeYear, DaysBeforeMonth, Leap, Quot, Rem;
    var year, month := tm.year, tm.mon;
    FloorOf(month, 12);
    if month >= 12 || month < 0 {
      var adj := Quot(month, 12);
      month := Rem(month, 12);
      if month < 0 {
        adj := adj - 1;
        month := month + 12;
      }
      year := year + adj;
    }
    var isLeap;
    t, isLeap := YearToSecs(year);
    t := t + MonthToSecs(month, isLeap);
    t := t + 86400 * (tm.mday - 1);
    t := t + 3600 * tm.hour;
    t := t + 60 * tm.min;
    t := t + tm.sec;
  }

  // ---------- from seconds to dates ----------

  /** The days from the first of March 2000 to the first of March n years later. */
  function MarchDays(n: int): int {
    365 * n + LeapYears(n)
  }

  lemma LeapShift(n: int)
    ensures LeapYears(2000 + n) == 485 + LeapYears(n)
    ensures LeapYears(1969) == 477
  {
    assert (2000 + n) / 4 == 500 + n / 4;
    assert (2000 + n) / 100 == 20 + n / 100;
    assert (2000 + n) / 400 == 5 + n / 400;
  }

  /** The first of March of a year, and the first of the following January, in calendar days. */
  lemma MarchFirst(n: int)
    ensures DaysBeforeYear(2000 + n) + DaysBeforeMonth(2, Leap(2000 + n)) == 11017 + MarchDays(n)
    ensures DaysBeforeYear(2001 + n) == 11017 + MarchDays(n) + 306
  {
    hide LeapYears, DaysBeforeYear, DaysBeforeMonth, Leap;
    YearsClosed(2001 + n);
    NextYear(2000 + n);
    MonthTable(Leap(2000 + n));
    LeapShift(n);
  }

  const DAYS_IN_MONTH: seq<nat> := [31, 30, 31, 30, 31, 31, 30, 31, 30, 31, 31, 29]

  /** Days from the first of March to the first day of the month that many months later. */
  function DaysFromMarch(months: nat): nat
    requires months <= 12
  {
    if months == 0 then 0 else DaysFromMarch(months - 1) + DAYS_IN_MONTH[months - 1]
  }

  lemma FromMarchTable(months: nat, leap: bool, next: bool)
    requires months < 12
    ensures months < 10 ==> DaysBeforeMonth(months + 2, leap) == DaysBeforeMonth(2, leap) + DaysFromMarch(months)
    ensures months < 10 ==> MonthDays(months + 2, leap) == DAYS_IN_MONTH[months]
    ensures months >= 10 ==> DaysFromMarch(months) == 306 + DaysBeforeMonth(months - 10, next)
    ensures months == 10 ==> MonthDays(0, next) == DAYS_IN_MONTH[10]
    ensures DaysFromMarch(12) == 366 && DaysFromMarch(11) == 337
  {
    MonthTable(leap);
    MonthTable(next);
    assert DaysFromMarch(2) == 61 && DaysFromMarch(1) == 31;
    assert DaysFromMarch(4) == 122 && DaysFromMarch(3) == 92;
    assert DaysFromMarch(6) == 184 && DaysFromMarch(5) == 153;
    assert DaysFromMarch(8) == 245 && DaysFromMarch(7) == 214;
    assert DaysFromMarch(10) == 306 && DaysFromMarch(9) == 275;
    assert DaysFromMarch(12) == 366 && DaysFromMarch(11) == 337;
  }

  /** Day r of the n-th March-based year after 2000. */
  ghost predicate DayOfYear(days: int, n: int, r: int) {
    days == MarchDays(n) + r && 0 <= r < YearDays(2001 + n)
  }

  /** Cycle, century, quad and year of a day; the last part of each may be one unit longer. */
  method YearOfDay(days: int) returns (years: int, remdays: int)
    ensures DayOfYear(days, years, remdays)
  {
    hide Quot, Rem, DayOfYear;
    FloorOf(days, DAYS_PER_400Y);
    var qcCycles := Quot(days, DAYS_PER_400Y);
    remdays := Rem(days, DAYS_PER_400Y);
    if remdays < 0 {
      remdays := remdays + DAYS_PER_400Y;
      qcCycles := qcCycles - 1;
    }
    var cCycles, qCycles, remyears;
    cCycles, qCycles, remyears, remdays := PlaceOfDay(remdays);
    years := remyears + 4 * qCycles + 100 * cCycles + 400 * qcCycles;
    Decomposed(qcCycles, cCycles, qCycles, remyears, remdays);
  }

  method PlaceOfDay(day: int) returns (cCycles: int, qCycles: int, remyears: int, remdays: int)
    requires 0 <= day < DAYS_PER_400Y
    ensures day == DAYS_PER_100Y * cCycles + DAYS_PER_4Y * qCycles + 365 * remyears + remdays
    ensures 0 <= cCycles < 4 && 0 <= qCycles < 25 && 0 <= remyears < 4 && 0 <= remdays <= 365
    ensures remdays == 365 ==> remyears == 3 && (qCycles < 24 || cCycles == 3)
  {
    remdays := day;
    cCycles := remdays / DAYS_PER_100Y;
    if cCycles == 4 {
      cCycles := cCycles - 1;
    }
    remdays := remdays - cCycles * DAYS_PER_100Y;
    qCycles := remdays / DAYS_PER_4Y;
    if qCycles == 25 {
      qCycles := qCycles - 1;
    }
    remdays := remdays - qCycles * DAYS_PER_4Y;
    remyears := remdays / 365;
    if remyears == 4 {
      remyears := remyears - 1;
    }
    remdays := remdays - remyears * 365;
  }

  lemma Decomposed(qc: int, c: int, q: int, y: int, r: int)
    requires 0 <= c < 4 && 0 <= q < 25 && 0 <= y < 4 && 0 <= r <= 365
    requires r == 365 ==> y == 3 && (q < 24 || c == 3)
    ensures DayOfYear(DAYS_PER_400Y * qc + DAYS_PER_100Y * c + DAYS_PER_4Y * q + 365 * y + r, y + 4 * q + 100 * c + 400 * qc, r)
  {
    var n := y + 4 * q + 100 * c + 400 * qc;
    assert n / 400 == qc && n / 100 == 4 * qc + c && n / 4 == 100 * qc + 25 * c + q;
    if r == 365 {
      var m := 2001 + n;
      assert m % 4 == 0;
      assert q < 24 ==> m % 100 != 0;
      assert q == 24 ==> m % 400 == 0;
    }
  }

  /** The month of a day of a March-based year; the loop never leaves its table. */
  method MonthOfDay(r: int) returns (months: nat, remdays: int)
    requires 0 <= r <= 365
    ensures months < 12 && r == DaysFromMarch(months) + remdays && 0 <= remdays < DAYS_IN_MONTH[months]
  {
    months, remdays := 0, r;
    FromMarchTable(11, false, false);
    while DAYS_IN_MONTH[months] <= remdays
      invariant months < 12 && r == DaysFromMarch(months) + remdays && remdays >= 0
      decreases 12 - months
    {
      assert months < 11;
      remdays := remdays - DAYS_IN_MONTH[months];
      months := months + 1;
    }
  }

  /** A conversion is refused, or its last increment of the year exceeds the range of int (which C
      leaves undefined), or it gives a date. */
  datatype Conversion = Rejected | Overflow | Converted(tm: Tm)

  /** The first second of the March of a year counted from 1900. */
  function MarchSecond(year: int): int {
    Seconds(Tm(0, 0, 0, 1, 2, year))
  }

  function JanuarySecond(year: int): int {
    Seconds(Tm(0, 0, 0, 1, 0, year))
  }

  lemma EdgeDays(year: int)
    ensures MarchSecond(year) == 86400 * (11017 + MarchDays(year - 100))
    ensures JanuarySecond(year) == 86400 * (11017 + MarchDays(year - 101) + 306)
  {
    hide DaysBeforeYear, MarchDays;
    MarchFirst(year - 100);
    MarchFirst(year - 101);
    MonthTable(Leap(year + 1900));
  }

  /** The bounds checked first lie outside of the years an int can hold. */
  lemma Edges()
    ensures INT_MIN * 31622400 < MarchSecond(INT_MIN)
    ensures MarchSecond(INT_MAX + 1) <= INT_MAX * 31622400
    ensures MarchSecond(INT_MIN) < JanuarySecond(INT_MAX + 1) < MarchSecond(INT_MAX + 1)
  {
    hide MarchSecond, JanuarySecond;
    EdgeDays(INT_MIN);
    EdgeDays(INT_MAX + 1);
  }

  lemma {:induction false} MarchAscend(n1: int, n2: int)
    requires n1 < n2
    ensures MarchDays(n1) + YearDays(2001 + n1) <= MarchDays(n2)
    decreases n2 - n1
  {
    hide MarchDays, DaysBeforeYear, Leap;
    MarchFirst(n2 - 1);
    MarchFirst(n2);
    NextYear(2000 + n2);
    if n1 < n2 - 1 {
      MarchAscend(n1, n2 - 1);
    }
  }

  lemma DayReaches(days: int, n: int, r: int, m: int)
    requires DayOfYear(days, n, r)
    ensures days >= MarchDays(m) <==> n >= m
  {
    hide MarchDays;
    if n < m {
      MarchAscend(n, m);
    } else if m < n {
      MarchAscend(m, n);
    }
  }

  lemma InEdges(days: int, n: int, r: int, t: int)
    requires DayOfYear(days, n, r) && 86400 * days <= t - LEAPOCH < 86400 * days + 86400
    ensures t >= MarchSecond(INT_MAX + 1) <==> n + 100 > INT_MAX
    ensures t < MarchSecond(INT_MIN) <==> n + 100 < INT_MIN
    ensures n + 100 == INT_MAX && r >= 306 <==> JanuarySecond(INT_MAX + 1) <= t < MarchSecond(INT_MAX + 1)
  {
    hide MarchSecond, JanuarySecond, YearDays, MarchDays;
    EdgeDays(INT_MAX + 1);
    EdgeDays(INT_MIN);
    DayReaches(days, n, r, INT_MAX + 1 - 100);
    DayReaches(days, n, r, INT_MAX - 100);
    DayReaches(days, n, r, INT_MIN - 100);
  }

  lemma LateMonths(r: int, months: nat, remdays: int)
    requires months < 12 && r == DaysFromMarch(months) + remdays && 0 <= remdays < DAYS_IN_MONTH[months]
    ensures r >= 306 <==> months >= 10
  {
    FromMarchTable(months, false, false);
    assert DaysFromMarch(10) == 306 by {
      FromMarchTable(10, false, false);
      MonthTable(false);
    }
    FromMarchAscends(months, 10);
    FromMarchAscends(10, months);
  }

  lemma {:induction false} FromMarchAscends(i: nat, j: nat)
    requires i < 12 && j < 12
    ensures i < j ==> DaysFromMarch(i) + DAYS_IN_MONTH[i] <= DaysFromMarch(j)
    ensures i == j ==> DaysFromMarch(i) == DaysFromMarch(j)
    decreases j
  {
    if i + 1 < j {
      FromMarchAscends(i, j - 1);
    }
  }

  /** Conversion gives the one normalised date of the second for all years an int can hold, but for
      January and February of the very first; it overflows for January and February of the year
      behind the last, and refuses everything else. */
  method SecsToTm(t: int) returns (r: Conversion)
    ensures r.Rejected? <==> t < MarchSecond(INT_MIN) || t >= MarchSecond(INT_MAX + 1)
    ensures r.Overflow? <==> JanuarySecond(INT_MAX + 1) <= t < MarchSecond(INT_MAX + 1)
    ensures r.Converted? ==> Normal(r.tm) && Seconds(r.tm) == t && INT_MIN <= r.tm.year <= INT_MAX
  {
    hide Quot, Rem, DaysBeforeYear, DaysBeforeMonth, Leap, YearDays, Seconds, DayNumber, MonthDays, DayOfYear, MarchDays;
    Edges();
    if t < INT_MIN * 31622400 || t > INT_MAX * 31622400 {
      return Rejected;
    }
    var secs := t - LEAPOCH;
    FloorOf(secs, 86400);
    var days, remsecs := Quot(secs, 86400), Rem(secs, 86400);
    if remsecs < 0 {
      remsecs := remsecs + 86400;
      days := days - 1;
    }
    var years, dayOfYear := YearOfDay(days);
    WithinYear(days, years, dayOfYear);
    var months, remdays := MonthOfDay(dayOfYear);
    LateMonths(dayOfYear, months, remdays);
    InEdges(days, years, dayOfYear, t);
    if years + 100 > INT_MAX || years + 100 < INT_MIN {
      return Rejected;
    }
    var year, mon := years + 100, months + 2;
    if mon >= 12 {
      mon := mon - 12;
      if year == INT_MAX {
        return Overflow;
      }
      year := year + 1;
    }
    var tm := Tm(remsecs % 60, remsecs / 60 % 60, remsecs / 3600, remdays + 1, mon, year);
    ConvertedDate(days, years, dayOfYear, months, remdays, tm, remsecs);
    r := Converted(tm);
  }

  lemma WithinYear(days: int, n: int, r: int)
    requires DayOfYear(days, n, r)
    ensures 0 <= r <= 365
  {
  }

  lemma TimeOfDay(s: int)
    requires 0 <= s < 86400
    ensures 3600 * (s / 3600) + 60 * (s / 60 % 60) + s % 60 == s
    ensures 0 <= s / 3600 < 24 && 0 <= s / 60 % 60 < 60 && 0 <= s % 60 < 60
  {
    assert s / 60 == 60 * (s / 3600) + s / 60 % 60;
  }

  /** The date put together from its parts is normal and falls on the day. */
  lemma ConvertedDate(days: int, n: int, r: int, months: nat, remdays: int, tm: Tm, remsecs: int)
    requires DayOfYear(days, n, r) && months < 12 && r == DaysFromMarch(months) + remdays
    requires 0 <= remdays < DAYS_IN_MONTH[months] && 0 <= remsecs < 86400
    requires tm == Tm(remsecs % 60, remsecs / 60 % 60, remsecs / 3600, remdays + 1,
                      if months < 10 then months + 2 else months - 10, if months < 10 then n + 100 else n + 101)
    ensures Normal(tm) && Seconds(tm) == LEAPOCH + 86400 * days + remsecs
  {
    hide DaysBeforeYear, DaysBeforeMonth, MarchDays;
    TimeOfDay(remsecs);
    MarchFirst(n);
    FromMarchTable(months, Leap(2000 + n), Leap(2001 + n));
    if months == 11 {
      February(Leap(2001 + n));
    }
  }

  lemma February(leap: bool)
    ensures MonthDays(1, leap) == if leap then 29 else 28
    ensures DaysFromMarch(11) == 337 && DaysBeforeMonth(1, leap) == 31
  {
    FromMarchTable(11, leap, leap);
    MonthTable(leap);
  }

  // ---------- there and back ----------

  lemma {:induction false} JanuaryToMarch(tm: Tm)
    requires Normal(tm)
    ensures JanuarySecond(tm.year) <= Seconds(tm) < JanuarySecond(tm.year + 1)
    ensures Seconds(tm) >= MarchSecond(tm.year) <==> tm.mon >= 2
  {
    hide DaysBeforeYear, DaysBeforeMonth, Leap;
    var leap := Leap(tm.year + 1900);
    InItsYear(tm);
    NextYear(tm.year + 1900);
    MonthTable(leap);
    if tm.mon < 2 {
      MonthsAscend(tm.mon, 2, leap);
    } else if tm.mon > 2 {
      MonthsAscend(2, tm.mon, leap);
    }
    MonthTable(Leap(tm.year + 1901));
  }

  lemma YearEdges(y1: int, y2: int)
    requires y1 < y2
    ensures MarchSecond(y1) < JanuarySecond(y2)
  {
    hide DaysBeforeYear, DaysBeforeMonth, Leap;
    YearsAscend(y1 + 1900, y2 + 1900);
    MonthTable(Leap(y1 + 1900));
    MonthTable(Leap(y2 + 1900));
  }

  lemma JanuaryAscends(y1: int, y2: int)
    requires y1 <= y2
    ensures JanuarySecond(y1) <= JanuarySecond(y2)
  {
    hide DaysBeforeYear, DaysBeforeMonth, Leap;
    MonthTable(Leap(y1 + 1900));
    MonthTable(Leap(y2 + 1900));
    if y1 < y2 {
      YearsAscend(y1 + 1900, y2 + 1900);
    }
  }

  /** Every second that converts to a date is given back by that date. */
  method ThereAndBack(t: int) returns (c: Conversion, t': int)
    ensures c.Converted? <==> MarchSecond(INT_MIN) <= t < JanuarySecond(INT_MAX + 1)
    ensures c.Converted? ==> t' == t
  {
    hide MarchSecond, JanuarySecond, Seconds;
    Edges();
    c := SecsToTm(t);
    t' := 0;
    if c.Converted? {
      t' := TmToSecs(c.tm);
    }
  }

  /** Every normalised date is given back by its second, except in the January and February of the
      first year an int can hold. */
  method BackAndThere(tm: Tm) returns (c: Conversion)
    requires Normal(tm) && INT_MIN <= tm.year <= INT_MAX
    ensures c == Converted(tm) <==> !(tm.year == INT_MIN && tm.mon < 2)
    ensures tm.year == INT_MIN && tm.mon < 2 ==> c.Rejected?
  {
    hide MarchSecond, JanuarySecond, Seconds, Normal;
    Edges();
    JanuaryToMarch(tm);
    JanuaryAscends(tm.year + 1, INT_MAX + 1);
    if tm.year > INT_MIN {
      YearEdges(INT_MIN, tm.year);
    }
    MonthBound(tm);
    var t := TmToSecs(tm);
    c := SecsToTm(t);
    if c.Converted? {
      OneDatePerSecond(c.tm, tm);
    }
  }

  lemma MonthBound(tm: Tm)
    requires Normal(tm)
    ensures 0 <= tm.mon < 12
  {
  }
}
