/**
  Cron schedules (x/cron/parser.go): the search for the next matching minute, and the field
  parser. Times are UTC.
*/
module Cron {
  import opened Optional
  import opened Words
  import opened Calendar

  // ----- the search -----

  datatype CronSchedule = CronSchedule(minutes: nat, hours: nat, daysOfMonth: nat, months: nat, daysOfWeek: nat)

  predicate DayMatches(s: CronSchedule, day: int) {
    Bit(s.months, MonthOf(day)) && Bit(s.daysOfMonth, DayOf(day)) && Bit(s.daysOfWeek, WeekdayOf(day))
  }

  /** The minute satisfies all five fields; day of month and day of week are conjoined. */
  predicate Matches(s: CronSchedule, t: int) {
    DayMatches(s, DayAt(t)) && Bit(s.hours, HourAt(t)) && Bit(s.minutes, MinuteAt(t))
  }

  const NanosPerMinute := 60_000_000_000

  /** The first whole minute after an instant given in nanoseconds. */
  function FirstMinute(from: int): int { from / NanosPerMinute + 1 }

  /** The minutes that begin after the instant, and no others, are searched. */
  lemma {:induction false} FirstMinuteExactly(from: int, t: int)
    ensures t >= FirstMinute(from) <==> t * 60_000_000_000 > from
  {
    assert from == NanosPerMinute * (from / NanosPerMinute) + from % NanosPerMinute;
  }

  /** AddDate(5, 0, 0): February 29 becomes March 1 when the year has none. */
  function Limit(t: int): int {
    var day := DayAt(t);
    Date(YearOf(day) + 5, MonthOf(day), DayOf(day), HourAt(t), MinuteAt(t))
  }

  /** No minute of the range matches. */
  ghost predicate NoneIn(s: CronSchedule, lo: int, hi: int) {
    forall t | lo <= t < hi :: !Matches(s, t)
  }

  lemma {:induction false} SkipMonth(s: CronSchedule, t: int)
    requires !Bit(s.months, MonthOf(DayAt(t)))
    ensures var next := Date(YearOf(DayAt(t)), MonthOf(DayAt(t)) + 1, 1, 0, 0); t < next && NoneIn(s, t, next)
  {
    var y, m := YearOf(DayAt(t)), MonthOf(DayAt(t));
    YearLength(y);
    forall u | t <= u < Date(y, m + 1, 1, 0, 0) ensures !Matches(s, u) {
      CivilUnique(DayAt(u), y, m);
    }
  }

  lemma {:induction false} SkipDay(s: CronSchedule, t: int)
    requires !DayMatches(s, DayAt(t))
    ensures var day := DayAt(t); var next := Date(YearOf(day), MonthOf(day), DayOf(day) + 1, 0, 0); t < next && NoneIn(s, t, next)
  {
    forall u | t <= u < 1440 * (DayAt(t) + 1) ensures !Matches(s, u) {
      assert DayAt(u) == DayAt(t);
    }
  }

  lemma {:induction false} SkipHour(s: CronSchedule, t: int)
    requires !Bit(s.hours, HourAt(t))
    ensures var day := DayAt(t);
      var next := Date(YearOf(day), MonthOf(day), DayOf(day), HourAt(t) + 1, 0); t < next && NoneIn(s, t, next)
  {
    forall u | t <= u < 1440 * DayAt(t) + 60 * (HourAt(t) + 1) ensures !Matches(s, u) {
      SameHour(t, u);
    }
  }

  lemma {:induction false} SameHour(t: int, u: int)
    requires t <= u < 1440 * DayAt(t) + 60 * (HourAt(t) + 1)
    ensures DayAt(u) == DayAt(t) && HourAt(u) == HourAt(t)
  {
    assert u / 1440 == t / 1440;
  }

  /** One turn of the loop: t itself, or the next minute worth looking at. */
  method Advance(s: CronSchedule, t: int) returns (found: bool, next: int)
    ensures found ==> next == t && Matches(s, t)
    ensures !found ==> t < next && NoneIn(s, t, next)
  {
    var day := DayAt(t);
    if !Bit(s.months, MonthOf(day)) {
      SkipMonth(s, t);
      return false, Date(YearOf(day), MonthOf(day) + 1, 1, 0, 0);
    }
    var domMatch, dowMatch := Bit(s.daysOfMonth, DayOf(day)), Bit(s.daysOfWeek, WeekdayOf(day));
    if !domMatch || !dowMatch {
      SkipDay(s, t);
      return false, Date(YearOf(day), MonthOf(day), DayOf(day) + 1, 0, 0);
    }
    if !Bit(s.hours, HourAt(t)) {
      SkipHour(s, t);
      return false, Date(YearOf(day), MonthOf(day), DayOf(day), HourAt(t) + 1, 0);
    }
    if !Bit(s.minutes, MinuteAt(t)) { return false, t + 1; }
    return true, t;
  }

  /** The earliest matching minute after `from` and before the limit, or None (the zero time)
      exactly when there is none. */
  method Next(s: CronSchedule, from: int) returns (r: Option<int>)
    ensures var t0 := FirstMinute(from);
      match r
      case Some(t) => t0 <= t < Limit(t0) && Matches(s, t) && NoneIn(s, t0, t)
      case None => NoneIn(s, t0, Limit(t0))
  {
    var t := FirstMinute(from);
    var limit := Limit(t);
    while t < limit
      invariant FirstMinute(from) <= t && NoneIn(s, FirstMinute(from), t)
      decreases limit - t
    {
      var found, next := Advance(s, t);
      if found { return Some(t); }
      t := next;
    }
    return None;
  }
}
