/**
  The proleptic Gregorian calendar in UTC, as Go's time package has it.

  Days are numbered from 0001-01-01, minutes from its midnight; both may be negative. A date is
  given by its year, month and day, and the month and day of a date to be built may lie outside
  their ranges: they carry into the next larger unit, which is how the schedule moves to the
  next month, day or hour.
*/
module Calendar {
  predicate Leap(y: int) {
    y % 4 == 0 && (y % 100 != 0 || y % 400 == 0)
  }

  function MonthLength(m: int, leap: bool): int {
    if m == 2 then (if leap then 29 else 28)
    else if m == 4 || m == 6 || m == 9 || m == 11 then 30 else 31
  }

  /** Days of the year before month m; month 13 stands for the end of the year. */
  function DaysBefore(m: int, leap: bool): int
    requires 1 <= m <= 13
    decreases m
  {
    if m == 1 then 0 else DaysBefore(m - 1, leap) + MonthLength(m - 1, leap)
  }

  function YearDays(y: int): int { if Leap(y) then 366 else 365 }

  /** Day number of January 1 of year y. */
  function YearStart(y: int): int
    decreases if y >= 1 then y else 2 - y
  {
    if y == 1 then 0
    else if y > 1 then YearStart(y - 1) + YearDays(y - 1)
    else YearStart(y + 1) - YearDays(y)
  }

  function MonthStart(y: int, m: int): int
    requires 1 <= m <= 13
  {
    YearStart(y) + DaysBefore(m, Leap(y))
  }

  function DaysIn(y: int, m: int): int {
    MonthLength(m, Leap(y))
  }

  lemma {:induction false} MonthsAddUp(leap: bool)
    ensures DaysBefore(13, leap) == if leap then 366 else 365
  {
    assert DaysBefore(3, leap) == 31 + MonthLength(2, leap);
    assert DaysBefore(5, leap) == DaysBefore(3, leap) + 61;
    assert DaysBefore(7, leap) == DaysBefore(5, leap) + 61;
    assert DaysBefore(9, leap) == DaysBefore(7, leap) + 62;
    assert DaysBefore(11, leap) == DaysBefore(9, leap) + 61;
    assert DaysBefore(13, leap) == DaysBefore(11, leap) + 61;
  }

  lemma {:induction false} YearLength(y: int)
    ensures YearStart(y + 1) == YearStart(y) + YearDays(y) == MonthStart(y, 13)
  {
    MonthsAddUp(Leap(y));
  }

  /** The closed form of the day number. */
  lemma {:induction false} YearStartFormula(y: int)
    ensures YearStart(y) == 365 * (y - 1) + (y - 1) / 4 - (y - 1) / 100 + (y - 1) / 400
    decreases if y >= 1 then y else 2 - y
  {
    if y > 1 {
      YearStartFormula(y - 1);
      LeapDays(y - 1);
    } else if y < 1 {
      YearStartFormula(y + 1);
      LeapDays(y);
    }
  }

  lemma {:induction false} LeapDays(y: int)
    ensures YearDays(y) == 365 + (y / 4 - (y - 1) / 4) - (y / 100 - (y - 1) / 100) + (y / 400 - (y - 1) / 400)
  {
    assert y / 4 - (y - 1) / 4 == (if y % 4 == 0 then 1 else 0);
    assert y / 100 - (y - 1) / 100 == (if y % 100 == 0 then 1 else 0);
    assert y / 400 - (y - 1) / 400 == (if y % 400 == 0 then 1 else 0);
  }

  /** Days from March 1 to the first of the month that comes n months later, within a year. */
  function FromMarch(n: nat): int { (153 * n + 2) / 5 }

  lemma {:induction false} MonthsFromMarch(m: int, leap: bool)
    requires 1 <= m <= 12
    ensures DaysBefore(m, leap) == if m >= 3 then FromMarch(m - 3) + (if leap then 60 else 59) else FromMarch(m + 9) - 306
    decreases m
  {
    if m > 3 {
      MonthsFromMarch(m - 1, leap);
    } else if m == 3 {
      MonthsFromMarch(2, leap);
    }
  }

  /** The closed form of the day number of a month's first day, with years that begin in March. */
  lemma {:induction false} MonthStartFormula(y: int, m: int)
    requires 1 <= m <= 12
    ensures var z, n := if m >= 3 then y else y - 1, if m >= 3 then m - 3 else m + 9;
      MonthStart(y, m) == 365 * z + z / 4 - z / 100 + z / 400 + FromMarch(n) - 306
  {
    MonthsFromMarch(m, Leap(y));
    YearStartFormula(y);
    LeapDays(y);
  }

  /** January 1, 1970 was a Thursday. */
  lemma {:induction false} EpochIsThursday()
    ensures MonthStart(1970, 1) == 719162 && WeekdayOf(MonthStart(1970, 1)) == 4
  {
    MonthStartFormula(1970, 1);
  }

  lemma {:induction false} YearsGrow(y: int, z: int)
    requires y <= z
    ensures YearStart(y) + 365 * (z - y) <= YearStart(z)
    decreases z - y
  {
    if y < z {
      YearsGrow(y, z - 1);
      YearLength(z - 1);
    }
  }

  /** No year begins later than years of 366 days from year 1 on, or of 365 days before it. */
  function FirstGuess(day: int): int {
    if day >= 0 then day / 366 + 1 else day / 365 + 1
  }

  lemma {:induction false} GuessIsLow(day: int)
    ensures YearStart(FirstGuess(day)) <= day
  {
    YearStartBound(FirstGuess(day));
  }

  lemma {:induction false} YearStartBound(y: int)
    ensures YearStart(y) <= (if y >= 1 then 366 else 365) * (y - 1)
    decreases if y >= 1 then y else 2 - y
  {
    if y > 1 { YearStartBound(y - 1); } else if y < 1 { YearStartBound(y + 1); }
  }

  function YearFrom(day: int, y: int): (r: int)
    requires YearStart(y) <= day
    ensures YearStart(r) <= day < YearStart(r + 1)
    decreases day - YearStart(y)
  {
    YearLength(y);
    if day < YearStart(y + 1) then y else YearFrom(day, y + 1)
  }

  function YearOf(day: int): (y: int)
    ensures YearStart(y) <= day < YearStart(y + 1)
  {
    GuessIsLow(day);
    YearFrom(day, FirstGuess(day))
  }

  function MonthFrom(y: int, day: int, m: int): (r: int)
    requires 1 <= m <= 12 && MonthStart(y, m) <= day < MonthStart(y, 13)
    ensures 1 <= r <= 12 && MonthStart(y, r) <= day < MonthStart(y, r + 1)
    decreases 12 - m
  {
    if day < MonthStart(y, m + 1) then m else MonthFrom(y, day, m + 1)
  }

  function MonthOf(day: int): (m: int)
    ensures 1 <= m <= 12 && MonthStart(YearOf(day), m) <= day < MonthStart(YearOf(day), m + 1)
  {
    YearLength(YearOf(day));
    MonthFrom(YearOf(day), day, 1)
  }

  function DayOf(day: int): (d: int)
    ensures 1 <= d <= DaysIn(YearOf(day), MonthOf(day))
  {
    day - MonthStart(YearOf(day), MonthOf(day)) + 1
  }

  /** 0 is Sunday; 0001-01-01 was a Monday. */
  function WeekdayOf(day: int): (w: int)
    ensures 0 <= w < 7
  {
    (day + 1) % 7
  }

  lemma {:induction false} YearUnique(day: int, y: int)
    requires YearStart(y) <= day < YearStart(y + 1)
    ensures YearOf(day) == y
  {
    var r := YearOf(day);
    if r < y { YearsGrow(r + 1, y); }
    if y < r { YearsGrow(y + 1, r); }
  }

  lemma {:induction false} MonthsGrow(a: int, b: int, leap: bool)
    requires 1 <= a <= b <= 13
    ensures DaysBefore(a, leap) + 28 * (b - a) <= DaysBefore(b, leap)
    decreases b - a
  {
    if a < b { MonthsGrow(a, b - 1, leap); }
  }

  /** Every day has one civil date: the one whose month contains it. */
  lemma {:induction false} CivilUnique(day: int, y: int, m: int)
    requires 1 <= m <= 12 && MonthStart(y, m) <= day < MonthStart(y, m + 1)
    ensures YearOf(day) == y && MonthOf(day) == m && DayOf(day) == day - MonthStart(y, m) + 1
  {
    var leap := Leap(y);
    assert YearStart(y) <= day < YearStart(y + 1) by {
      YearLength(y);
      MonthsGrow(1, m, leap);
      MonthsGrow(m + 1, 13, leap);
    }
    YearUnique(day, y);
    MonthUnique(y, day, m, MonthOf(day));
  }

  lemma {:induction false} MonthUnique(y: int, day: int, m: int, r: int)
    requires 1 <= m <= 12 && MonthStart(y, m) <= day < MonthStart(y, m + 1)
    requires 1 <= r <= 12 && MonthStart(y, r) <= day < MonthStart(y, r + 1)
    ensures m == r
  {
    if r < m { MonthsGrow(r + 1, m, Leap(y)); }
    if m < r { MonthsGrow(m + 1, r, Leap(y)); }
  }

  // ----- minutes -----

  function DayAt(t: int): int { t / 1440 }
  function HourAt(t: int): int { t % 1440 / 60 }
  function MinuteAt(t: int): int { t % 60 }

  /** time.Date: month 13 is January of the next year; days, hours and minutes carry over. */
  function Date(y: int, m: int, d: int, h: int, mi: int): int
    requires 1 <= m <= 13
  {
    1440 * ((if m == 13 then YearStart(y + 1) else MonthStart(y, m)) + d - 1) + 60 * h + mi
  }

  /** Building a time from its own fields gives it back. */
  lemma {:induction false} DateOfFields(t: int, day: int, y: int, m: int)
    requires day == DayAt(t) && y == YearOf(day) && m == MonthOf(day)
    ensures Date(y, m, DayOf(day), HourAt(t), MinuteAt(t)) == t
  {
    HoursAndMinutes(t);
    assert MonthStart(y, m) + DayOf(day) - 1 == day;
  }

  lemma {:induction false} HoursAndMinutes(t: int)
    ensures t == 1440 * DayAt(t) + 60 * HourAt(t) + MinuteAt(t)
  {
    var r := t % 1440;
    assert t == 1440 * (t / 1440) + r && r == 60 * (r / 60) + r % 60;
    assert t == 60 * (24 * (t / 1440) + r / 60) + r % 60;
  }

  lemma {:induction false} Clock(t: int, day: int, h: int, mi: int)
    requires t == 1440 * day + 60 * h + mi && 0 <= h < 24 && 0 <= mi < 60
    ensures DayAt(t) == day && HourAt(t) == h && MinuteAt(t) == mi
  {
    assert t == 60 * (24 * day + h) + mi;
  }

  /** Day d of month m lies in its year. */
  lemma {:induction false} InYear(y: int, m: int, d: int)
    requires 1 <= m <= 12 && 1 <= d <= DaysIn(y, m)
    ensures YearStart(y) <= MonthStart(y, m) + d - 1 < YearStart(y + 1)
  {
    YearLength(y);
    MonthsGrow(1, m, Leap(y));
    MonthsGrow(m + 1, 13, Leap(y));
  }

  /** The fields of a valid date and time are the ones it was built from. */
  lemma {:induction false} FieldsOfDate(t: int, day: int, y: int, m: int, d: int, h: int, mi: int)
    requires 1 <= m <= 12 && 1 <= d <= DaysIn(y, m) && 0 <= h < 24 && 0 <= mi < 60
    requires t == Date(y, m, d, h, mi) && day == MonthStart(y, m) + d - 1
    ensures DayAt(t) == day && HourAt(t) == h && MinuteAt(t) == mi
    ensures YearOf(day) == y && MonthOf(day) == m && DayOf(day) == d
  {
    Clock(t, day, h, mi);
    CivilUnique(day, y, m);
  }
}
