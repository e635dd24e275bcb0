/** What the five-year window of the schedule search means (x/cron/parser.go). */
module CronLimit {
  // Next gives up where its window ends. A schedule that fires within the window of every start is
  // never given up; which schedules those are is decided on one cycle of the calendar.

  import opened Words
  import opened Calendar
  import opened Cron

  /** Next finds something from here. */
  ghost predicate Fires(s: CronSchedule, t0: int) {
    exists t :: t0 <= t < Limit(t0) && Matches(s, t)
  }

  ghost predicate AlwaysFires(s: CronSchedule) {
    forall t0 :: Fires(s, t0)
  }

  /** A minute of the day at which the schedule fires on its days. */
  predicate TimeOf(s: CronSchedule, time: int) {
    0 <= time < 1440 && Bit(s.hours, time / 60) && Bit(s.minutes, time % 60)
  }

  predicate AnyWeekday(s: CronSchedule) {
    forall w: nat | w < 7 :: Bit(s.daysOfWeek, w)
  }

  /** Some date that every year has. */
  predicate YearlyDate(s: CronSchedule) {
    exists m: nat, d: nat :: m <= 12 && d <= 31 && NamesDate(s, m, d)
  }

  predicate NamesDate(s: CronSchedule, m: nat, d: nat) {
    1 <= m <= 12 && 1 <= d <= MonthLength(m, false) && Bit(s.months, m) && Bit(s.daysOfMonth, d)
  }

  // ----- free weekdays -----

  /** The window reaches past the whole of the next three years. */
  lemma {:induction false} LimitFar(t: int, limit: int, y: int)
    requires limit == Limit(t) && y == YearOf(DayAt(t))
    ensures t < 1440 * YearStart(y + 1) && 1440 * YearStart(y + 5) <= limit
  {
    var day := DayAt(t);
    LateInYear(y + 5, MonthOf(day), DayOf(day), HourAt(t), MinuteAt(t));
    assert day < YearStart(y + 1);
  }

  lemma {:induction false} LateInYear(y: int, m: int, d: int, h: int, mi: int)
    requires 1 <= m <= 12 && d >= 1 && h >= 0 && mi >= 0
    ensures 1440 * YearStart(y) <= Date(y, m, d, h, mi)
  {
    MonthsGrow(1, m, Leap(y));
  }

  lemma {:induction false} NextYearInWindow(t0: int, limit: int, y: int, day: int, t: int)
    requires limit == Limit(t0) && y == YearOf(DayAt(t0))
    requires YearStart(y + 1) <= day < YearStart(y + 2) && 1440 * day <= t < 1440 * (day + 1)
    ensures t0 <= t < limit
  {
    LimitFar(t0, limit, y);
    YearsGrow(y + 2, y + 5);
  }

  /** A schedule that leaves the weekday free and names a date that every year has fires within
      the window of every start. */
  lemma {:induction false} YearlyFires(s: CronSchedule, m: int, d: int, time: int, t0: int)
    requires 1 <= m <= 12 && 1 <= d <= MonthLength(m, false) && TimeOf(s, time)
    requires Bit(s.months, m) && Bit(s.daysOfMonth, d) && AnyWeekday(s)
    ensures Fires(s, t0)
  {
    var y, h, mi := YearOf(DayAt(t0)), time / 60, time % 60;
    var day, t := MonthStart(y + 1, m) + d - 1, Date(y + 1, m, d, h, mi);
    FieldsOfDate(t, day, y + 1, m, d, h, mi);
    InYear(y + 1, m, d);
    NextYearInWindow(t0, Limit(t0), y, day, t);
    MatchesFields(s, t, day);
  }

  lemma {:induction false} MatchesFields(s: CronSchedule, t: int, day: int)
    requires day == DayAt(t) && DayMatches(s, day) && Bit(s.hours, HourAt(t)) && Bit(s.minutes, MinuteAt(t))
    ensures Matches(s, t)
  {
  }

  /** Without such a date only February 29 is left, and 2096-03-01 is the start of eight years
      that have none. */
  lemma {:induction false} LeapDayGap(s: CronSchedule, y: int, t0: int)
    requires !YearlyDate(s) && y == 2096 && t0 == Date(y, 3, 1, 0, 0)
    ensures !Fires(s, t0)
  {
    FieldsOfDate(t0, MonthStart(y, 3), y, 3, 1, 0, 0);
    assert Limit(t0) == Date(y + 5, 3, 1, 0, 0);
    forall t | t0 <= t < Limit(t0) ensures !Matches(s, t) {
      if Matches(s, t) {
        var z := OnlyLeapDay(s, DayAt(t));
        NoLeapDay(y, DayAt(t), z);
      }
    }
  }

  lemma {:induction false} OnlyLeapDay(s: CronSchedule, day: int) returns (z: int)
    requires !YearlyDate(s) && DayMatches(s, day)
    ensures z == YearOf(day) && Leap(z) && day == MonthStart(z, 3) - 1
  {
    z := YearOf(day);
    var m: nat, d: nat := MonthOf(day), DayOf(day);
    assert !NamesDate(s, m, d);
  }

  lemma {:induction false} NoLeapDay(y: int, day: int, z: int)
    requires y == 2096 && Leap(z) && day == MonthStart(z, 3) - 1
    ensures !(MonthStart(y, 3) <= day < MonthStart(y + 5, 3))
  {
    if z <= y {
      YearsGrow(z, y);
      if z < y { InYear(z, 2, 29); YearsGrow(z + 1, y); }
    } else if z >= y + 5 {
      InYear(z, 2, 29);
      YearsGrow(y + 5, z);
      if z > y + 5 { YearsGrow(y + 6, z); InYear(y + 5, 3, 1); }
    }
  }

  /** With the weekday free, the schedule always fires exactly when it names a date that every
      year has, and a time. */
  lemma {:induction false} FreeWeekdayExactly(s: CronSchedule)
    requires AnyWeekday(s)
    ensures AlwaysFires(s) <==> YearlyDate(s) && exists time :: TimeOf(s, time)
  {
    if time :| TimeOf(s, time) && YearlyDate(s) {
      var m: nat, d: nat :| m <= 12 && d <= 31 && NamesDate(s, m, d);
      forall t0 ensures Fires(s, t0) { YearlyFires(s, m, d, time, t0); }
    }
    if AlwaysFires(s) {
      var time := FiringTime(s, 0);
      if !YearlyDate(s) { LeapDayGap(s, 2096, Date(2096, 3, 1, 0, 0)); }
    }
  }

  lemma {:induction false} FiringTime(s: CronSchedule, t0: int) returns (time: int)
    requires Fires(s, t0)
    ensures TimeOf(s, time)
  {
    var t :| t0 <= t < Limit(t0) && Matches(s, t);
    time := MinuteOfDay(s, t);
  }

  lemma {:induction false} MinuteOfDay(s: CronSchedule, t: int) returns (time: int)
    requires Matches(s, t)
    ensures t == 1440 * DayAt(t) + time && TimeOf(s, time)
  {
    time := 60 * HourAt(t) + MinuteAt(t);
    HoursAndMinutes(t);
  }

  // ----- any weekdays: 400 years decide -----

  /** 400 years are a whole number of weeks. */
  const CycleDays := 146097

  lemma {:induction false} CycleOfYears(y: int)
    ensures YearStart(y + 400) == YearStart(y) + CycleDays && Leap(y + 400) == Leap(y)
  {
    YearStartFormula(y);
    YearStartFormula(y + 400);
    Quotients(y - 1);
  }

  lemma {:induction false} Quotients(x: int)
    ensures (x + 400) / 4 == x / 4 + 100 && (x + 400) / 100 == x / 100 + 4 && (x + 400) / 400 == x / 400 + 1
  {
  }

  /** After a cycle the same day comes back. */
  lemma {:induction false} CycleOfDays(day: int, later: int)
    requires later == day + CycleDays
    ensures YearOf(later) == YearOf(day) + 400 && MonthOf(later) == MonthOf(day) && DayOf(later) == DayOf(day)
    ensures WeekdayOf(later) == WeekdayOf(day)
  {
    var y, m := YearOf(day), MonthOf(day);
    CycleOfMonths(y, m);
    CycleOfMonths(y, m + 1);
    CivilUnique(later, y + 400, m);
    CycleOfWeekdays(day, later);
  }

  lemma {:induction false} CycleOfMonths(y: int, m: int)
    requires 1 <= m <= 13
    ensures MonthStart(y + 400, m) == MonthStart(y, m) + CycleDays
  {
    CycleOfYears(y);
  }

  lemma {:induction false} CycleOfWeekdays(day: int, later: int)
    requires later == day + CycleDays
    ensures WeekdayOf(later) == WeekdayOf(day)
  {
  }

  /** Five years on: February 29 becomes March 1 when the year has none. */
  function LimitDay(day: int): int {
    MonthStart(YearOf(day) + 5, MonthOf(day)) + DayOf(day) - 1
  }

  lemma {:induction false} LimitIsDay(t: int, day: int)
    requires day == DayAt(t)
    ensures Limit(t) == t + 1440 * (LimitDay(day) - day) && day + 1 < LimitDay(day)
  {
    HoursAndMinutes(t);
    LimitFar(t, Limit(t), YearOf(day));
    YearsGrow(YearOf(day) + 1, YearOf(day) + 5);
  }

  lemma {:induction false} CycleOfLimits(day: int, later: int)
    requires later == day + CycleDays
    ensures LimitDay(later) == LimitDay(day) + CycleDays
  {
    CycleOfDays(day, later);
    CycleOfYears(YearOf(day) + 5);
  }

  /** Some matching day strictly inside the window of a day, or the days at both its ends, or the
      day itself with a last minute that no start leaves behind. */
  ghost predicate ServedUntil(s: CronSchedule, day: int, limit: int) {
    || (exists d :: day < d < limit && d in Days(s))
    || (day in Days(s) && (limit in Days(s) || LastMinute in Times(s)))
  }

  ghost predicate DayServed(s: CronSchedule, day: int) { ServedUntil(s, day, LimitDay(day)) }

  const LastMinute := 1439

  ghost function Days(s: CronSchedule): iset<int> { iset day | DayMatches(s, day) }
  ghost function Times(s: CronSchedule): iset<int> { iset time | TimeOf(s, time) }

  /** The schedule always fires exactly when it names a time and every day is served. */
  lemma {:induction false} DaysDecide(s: CronSchedule)
    ensures AlwaysFires(s) <==> (exists time :: TimeOf(s, time)) && forall day :: DayServed(s, day)
  {
    if time :| TimeOf(s, time) && forall day :: DayServed(s, day) {
      forall t0 ensures Fires(s, t0) {
        assert DayServed(s, DayAt(t0));
        ServedFires(s, t0, DayAt(t0), time);
      }
    }
    if AlwaysFires(s) {
      var time := FiringTime(s, 0);
      forall day ensures DayServed(s, day) {
        assert Fires(s, 1440 * day) && Fires(s, 1440 * day + LastMinute);
        FiresServed(s, day, 1440 * day, 1440 * day + LastMinute);
      }
    }
  }

  lemma {:induction false} MatchesAt(s: CronSchedule, day: int, time: int, t: int)
    requires day in Days(s) && time in Times(s) && t == 1440 * day + time
    ensures Matches(s, t)
  {
    Clock(t, day, time / 60, time % 60);
  }

  lemma {:induction false} ServedFires(s: CronSchedule, t0: int, day: int, time: int)
    requires day == DayAt(t0) && DayServed(s, day) && time in Times(s)
    ensures Fires(s, t0)
  {
    LimitIsDay(t0, day);
    if d :| day < d < LimitDay(day) && d in Days(s) {
      MatchesAt(s, d, time, 1440 * d + time);
    } else if LastMinute in Times(s) {
      MatchesAt(s, day, LastMinute, 1440 * day + LastMinute);
    } else if t0 <= 1440 * day + time {
      MatchesAt(s, day, time, 1440 * day + time);
    } else {
      MatchesAt(s, LimitDay(day), time, 1440 * LimitDay(day) + time);
    }
  }

  /** A match in the window of a start: on the start's own day, between, or on the window's last day. */
  lemma {:induction false} MatchInWindow(s: CronSchedule, t0: int, day: int) returns (d: int, time: int)
    requires Fires(s, t0) && day == DayAt(t0)
    ensures day <= d <= LimitDay(day) && d in Days(s) && time in Times(s)
    ensures t0 <= 1440 * d + time < t0 + 1440 * (LimitDay(day) - day)
  {
    var t :| t0 <= t < Limit(t0) && Matches(s, t);
    d := DayAt(t);
    time := MinuteOfDay(s, t);
    LimitIsDay(t0, day);
  }

  /** What fires from the first and from the last minute of a day is served on it. */
  lemma {:induction false} FiresServed(s: CronSchedule, day: int, first: int, last: int)
    requires first == 1440 * day && last == first + LastMinute && Fires(s, first) && Fires(s, last)
    ensures DayServed(s, day)
  {
    var d, time := MatchInWindow(s, first, day);
    var e, late := MatchInWindow(s, last, day);
    EndsServe(s, day, LimitDay(day), d, time, e, late);
  }

  lemma {:induction false} EndsServe(s: CronSchedule, day: int, limit: int, d: int, time: int, e: int, late: int)
    requires d in Days(s) && e in Days(s) && late in Times(s) && 0 <= time < 1440 && 0 <= late < 1440
    requires 1440 * day <= 1440 * d + time < 1440 * limit
    requires 1440 * day + LastMinute <= 1440 * e + late < 1440 * limit + LastMinute
    ensures ServedUntil(s, day, limit)
  {
    assert day <= d < limit && day <= e <= limit;
    if day < d {
      assert day < d < limit && d in Days(s);
    } else if day < e < limit {
      assert day < e < limit && e in Days(s);
    } else if e == day {
      assert late == LastMinute;
    }
  }

  lemma {:induction false} CycleOfMatches(s: CronSchedule, day: int, later: int)
    requires later == day + CycleDays
    ensures later in Days(s) <==> day in Days(s)
  {
    CycleOfDays(day, later);
  }

  lemma {:induction false} ServedLater(s: CronSchedule, day: int, later: int)
    requires later == day + CycleDays && DayServed(s, day)
    ensures DayServed(s, later)
  {
    CycleOfLimits(day, later);
    CycleOfMatches(s, day, later);
    CycleOfMatches(s, LimitDay(day), LimitDay(later));
    if d :| day < d < LimitDay(day) && d in Days(s) { CycleOfMatches(s, d, d + CycleDays); }
  }

  lemma {:induction false} ServedEarlier(s: CronSchedule, day: int, later: int)
    requires later == day + CycleDays && DayServed(s, later)
    ensures DayServed(s, day)
  {
    CycleOfLimits(day, later);
    CycleOfMatches(s, day, later);
    CycleOfMatches(s, LimitDay(day), LimitDay(later));
    if d :| later < d < LimitDay(later) && d in Days(s) { CycleOfMatches(s, d - CycleDays, d); }
  }

  /** Every day is served if the days of one cycle are. */
  lemma {:induction false} ServedFromCycle(s: CronSchedule, day: int)
    requires forall d | 0 <= d < CycleDays :: DayServed(s, d)
    ensures DayServed(s, day)
    decreases if day < 0 then -day else day
  {
    if day >= CycleDays {
      ServedFromCycle(s, day - CycleDays);
      ServedLater(s, day - CycleDays, day);
    } else if day < 0 {
      if day + CycleDays < 0 { ServedFromCycle(s, day + CycleDays); }
      ServedEarlier(s, day, day + CycleDays);
    }
  }

  /** Whatever its weekdays, a schedule always fires exactly when it names a time and the days of one
      cycle of 400 years are served. */
  lemma {:induction false} CycleDecides(s: CronSchedule)
    ensures AlwaysFires(s) <==> (exists time :: TimeOf(s, time)) && forall day | 0 <= day < CycleDays :: DayServed(s, day)
  {
    DaysDecide(s);
    if forall day | 0 <= day < CycleDays :: DayServed(s, day) {
      forall day ensures DayServed(s, day) { ServedFromCycle(s, day); }
    }
  }

  // ----- a schedule that is given up -----

  lemma {:induction false} BitOfTwo(i: nat)
    ensures Bit(2, i) == (i == 1) && Bit(1, i) == (i == 0)
  {
    if i >= 1 { BitOfZero(i - 1); }
    if i >= 2 { BitOfZero(i - 2); }
    assert i >= 1 ==> Bit(2, i) == Bit(1, i - 1);
    assert i >= 1 ==> Bit(1, i) == Bit(0, i - 1);
    assert i >= 2 ==> Bit(1, i - 1) == Bit(0, i - 2);
  }

  /** Midnight of January 1, when it is a Sunday. */
  const SundayNewYear := CronSchedule(1, 1, 2, 2, 1)

  lemma {:induction false} SundayNewYearMatches(t: int)
    ensures Matches(SundayNewYear, t) <==>
      && MonthOf(DayAt(t)) == 1 && DayOf(DayAt(t)) == 1 && WeekdayOf(DayAt(t)) == 0 && HourAt(t) == 0 && MinuteAt(t) == 0
  {
    var day := DayAt(t);
    BitOfTwo(MonthOf(day)); BitOfTwo(DayOf(day)); BitOfTwo(WeekdayOf(day)); BitOfTwo(HourAt(t)); BitOfTwo(MinuteAt(t));
  }

  lemma {:induction false} NewYear(t: int) returns (y: int)
    requires MonthOf(DayAt(t)) == 1 && DayOf(DayAt(t)) == 1 && HourAt(t) == 0 && MinuteAt(t) == 0
    ensures t == 1440 * YearStart(y) && DayAt(t) == YearStart(y)
  {
    y := YearOf(DayAt(t));
    DateOfFields(t, DayAt(t), y, 1);
  }

  /** Such gaps can exceed the limit: after New Year 2006 the next one is in 2012, and the search
      gives up in 2011 although the schedule would fire again. */
  lemma {:induction false} SixYearGap(y: int, t0: int, limit: int, later: int)
    requires y == 2006 && t0 == Date(y, 1, 1, 0, 1) && limit == Limit(t0) && later == Date(y + 6, 1, 1, 0, 0)
    ensures NoneIn(SundayNewYear, t0, limit) && Matches(SundayNewYear, later)
  {
    FieldsOfDate(t0, YearStart(y), y, 1, 1, 0, 1);
    assert limit == Date(y + 5, 1, 1, 0, 1);
    forall t | t0 <= t < limit ensures !Matches(SundayNewYear, t) {
      if Matches(SundayNewYear, t) {
        SundayNewYearMatches(t);
        var z := NewYear(t);
        NoSunday(y, z, t);
      }
    }
    FieldsOfDate(later, YearStart(y + 6), y + 6, 1, 1, 0, 0);
    Sundays(y, y + 6);
    SundayNewYearMatches(later);
  }

  lemma {:induction false} Sundays(y: int, z: int)
    requires y == 2006 && y < z <= y + 6
    ensures WeekdayOf(YearStart(z)) == 0 <==> z == y + 6
  {
    YearStartFormula(z);
  }

  lemma {:induction false} NoSunday(y: int, z: int, t: int)
    requires y == 2006 && t == 1440 * YearStart(z) && Date(y, 1, 1, 0, 1) <= t < Date(y + 5, 1, 1, 0, 1)
    ensures WeekdayOf(YearStart(z)) != 0
  {
    if z <= y { YearsGrow(z, y); }
    if z >= y + 6 { YearsGrow(y + 5, z); }
    Sundays(y, z);
  }
}
