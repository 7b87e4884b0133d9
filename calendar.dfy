/**
 * Broken-down time for a Unix timestamp, as `datetime.fromtimestamp` yields
 * it and `strftime` reads it: year, month, day of month, hour, minute, and the
 * Monday-first week number `%W` of C `strftime` (not the ISO 8601 week).
 * The decomposition is UTC in the proleptic Gregorian calendar.
 */
module Calendar {

  const SecondsPerDay: nat := 86400

  predicate IsLeap(y: int) {
    y % 4 == 0 && (y % 100 != 0 || y % 400 == 0)
  }

  function DaysInYear(y: int): nat {
    if IsLeap(y) then 366 else 365
  }

  function DaysInMonth(y: int, m: int): nat
    requires 1 <= m <= 12
  {
    if m == 2 then (if IsLeap(y) then 29 else 28)
    else if m == 4 || m == 6 || m == 9 || m == 11 then 30
    else 31
  }

  /** Days of year `y` that come before the first of month `m`. */
  function DaysBeforeMonth(y: int, m: int): nat
    requires 1 <= m <= 12
  {
    [0, 31, 59, 90, 120, 151, 181, 212, 243, 273, 304, 334][m - 1]
      + (if IsLeap(y) && m > 2 then 1 else 0)
  }

  lemma MonthsFillYear(y: int, m: int)
    requires 1 <= m <= 12
    ensures m < 12 ==> DaysBeforeMonth(y, m + 1) == DaysBeforeMonth(y, m) + DaysInMonth(y, m)
    ensures m == 12 ==> DaysBeforeMonth(y, m) + DaysInMonth(y, m) == DaysInYear(y)
  {
  }

  /** Days from 1970-01-01 to the first of January of year `y`. */
  function DaysBeforeYear(y: int): nat
    requires y >= 1970
    decreases y - 1970
  {
    if y == 1970 then 0 else DaysBeforeYear(y - 1) + DaysInYear(y - 1)
  }

  /**
   * Walks whole years forward from `y`: the year that holds day `d` counted from
   * the first of January of `y`, and the 0-based day of that year.
   */
  function YearOf(d: nat, y: int): (r: (int, nat))
    requires y >= 1970
    ensures r.0 >= y && r.1 < DaysInYear(r.0)
    ensures DaysBeforeYear(r.0) + r.1 == DaysBeforeYear(y) + d
    decreases d
  {
    if d < DaysInYear(y) then (y, d) else YearOf(d - DaysInYear(y), y + 1)
  }

  /** The month whose days hold day `r` (0-based) of year `y`, searching down from month `m`. */
  function MonthFrom(y: int, r: nat, m: int): (month: int)
    requires 1 <= m <= 12
    ensures 1 <= month <= m && DaysBeforeMonth(y, month) <= r
    ensures month < m ==> r < DaysBeforeMonth(y, month + 1)
    decreases m
  {
    if m == 1 || DaysBeforeMonth(y, m) <= r then m else MonthFrom(y, r, m - 1)
  }

  datatype Date = Date(year: int, month: int, day: int)

  predicate ValidDate(date: Date) {
    date.year >= 1970 && 1 <= date.month <= 12 && 1 <= date.day <= DaysInMonth(date.year, date.month)
  }

  /** The day number (days since 1970-01-01) of a date: the inverse of `DateOfDay`. */
  function DayNumber(date: Date): int
    requires ValidDate(date)
  {
    DaysBeforeYear(date.year) + DaysBeforeMonth(date.year, date.month) + date.day - 1
  }

  /** The calendar date of day number `d`. */
  function DateOfDay(d: nat): (date: Date)
    ensures ValidDate(date)
  {
    var (y, r) := YearOf(d, 1970);
    var m := MonthFrom(y, r, 12);
    MonthsFillYear(y, m);
    Date(y, m, r - DaysBeforeMonth(y, m) + 1)
  }

  /** The day number of a date is the day that produced it. */
  lemma DayNumberOfDate(d: nat)
    ensures DayNumber(DateOfDay(d)) == d
  {
  }

  /** Different days never share a calendar date. */
  lemma DateOfDayInjective(d1: nat, d2: nat)
    ensures DateOfDay(d1) == DateOfDay(d2) <==> d1 == d2
  {
    DayNumberOfDate(d1);
    DayNumberOfDate(d2);
  }

  /** `tm_yday`: 0-based day of the year. */
  function YearDay(d: nat): (yd: nat)
    ensures yd < DaysInYear(DateOfDay(d).year)
    ensures DaysBeforeYear(DateOfDay(d).year) + yd == d
  {
    YearOf(d, 1970).1
  }

  /** Days since the last Monday: Monday is 0, Sunday is 6 (1970-01-01 was a Thursday). */
  function WeekdayFromMonday(d: nat): nat {
    (d + 3) % 7
  }

  /**
   * `%W` of C `strftime`: the week of the year counted from the year's first
   * Monday; the days before it are week 0.
   */
  function MondayWeek(d: nat): (w: nat)
    ensures w <= 53
  {
    (YearDay(d) + 7 - WeekdayFromMonday(d)) / 7
  }

  /** Weeks since the Monday before 1970-01-01 (Monday 1969-12-29 starts week 0). */
  function MondayWeeksSinceEpoch(d: nat): nat {
    (d + 3) / 7
  }

  lemma DivShift(q: int, c: int)
    ensures (7 * q + c) / 7 == q + c / 7
  {
    var k := c / 7;
    assert c == 7 * k + c % 7;
    assert 7 * q + c == 7 * (q + k) + c % 7;
  }

  /**
   * Within one calendar year `%W` is the epoch week shifted by a constant, so
   * two days of the same year have the same `%W` exactly when they lie in the same
   * Monday-to-Sunday week.
   */
  lemma MondayWeekSameYear(d1: nat, d2: nat)
    requires DateOfDay(d1).year == DateOfDay(d2).year
    ensures MondayWeek(d1) == MondayWeek(d2) <==> MondayWeeksSinceEpoch(d1) == MondayWeeksSinceEpoch(d2)
  {
    var base: int := DaysBeforeYear(DateOfDay(d1).year);
    forall d: nat | d == d1 || d == d2
      ensures MondayWeek(d) == MondayWeeksSinceEpoch(d) + (4 - base) / 7
    {
      var q := MondayWeeksSinceEpoch(d);
      assert (d + 3) % 7 == d + 3 - 7 * q;
      assert YearDay(d) + 7 - WeekdayFromMonday(d) == 7 * q + (4 - base);
      DivShift(q, 4 - base);
    }
  }

  /** The broken-down fields of a timestamp that the retention keys use. */
  datatype Moment = Moment(date: Date, week: nat, hour: nat, minute: nat)

  /** `datetime.fromtimestamp(t)` read through `strftime`, in UTC. */
  function MomentOf(t: nat): (m: Moment)
    ensures ValidDate(m.date) && m.week <= 53 && m.hour < 24 && m.minute < 60
  {
    var d := t / SecondsPerDay;
    var s := t % SecondsPerDay;
    Moment(DateOfDay(d), MondayWeek(d), s / 3600, s % 3600 / 60)
  }

  lemma DivMod60(t: int, a: int, b: int)
    requires 0 <= b < 60 && t == a * 60 + b
    ensures t / 60 == a && t % 60 == b
  {
  }

  lemma DivMod1440(t: int, a: int, b: int)
    requires 0 <= b < 1440 && t == a * 1440 + b
    ensures t / 1440 == a && t % 1440 == b
  {
  }

  /**
   * The whole minutes since the epoch are the day number, hour and minute read
   * as one mixed-radix number.
   */
  lemma {:induction false} MinuteOfTimestamp(t: nat)
    ensures t / 60 == 1440 * (t / SecondsPerDay) + 60 * MomentOf(t).hour + MomentOf(t).minute
    ensures t / 60 / 1440 == t / SecondsPerDay
    ensures t / 60 % 1440 == 60 * MomentOf(t).hour + MomentOf(t).minute
  {
    var d := t / SecondsPerDay;
    var s := t % SecondsPerDay;
    var h := s / 3600;
    var r := s % 3600;
    var mi := r / 60;
    var sec := r % 60;
    assert t == 86400 * d + s;
    assert s == 3600 * h + r;
    assert r == 60 * mi + sec;
    assert t == (1440 * d + 60 * h + mi) * 60 + sec;
    DivMod60(t, 1440 * d + 60 * h + mi, sec);
    DivMod1440(t / 60, d, 60 * h + mi);
  }

  /** Two timestamps agree on date, hour and minute exactly when they lie in the same minute. */
  lemma SameMinute(t1: nat, t2: nat)
    ensures (MomentOf(t1).date == MomentOf(t2).date && MomentOf(t1).hour == MomentOf(t2).hour
             && MomentOf(t1).minute == MomentOf(t2).minute) <==> t1 / 60 == t2 / 60
  {
    MinuteOfTimestamp(t1);
    MinuteOfTimestamp(t2);
    DateOfDayInjective(t1 / SecondsPerDay, t2 / SecondsPerDay);
    var m1, m2 := MomentOf(t1), MomentOf(t2);
    if t1 / 60 == t2 / 60 {
      assert 60 * m1.hour + m1.minute == 60 * m2.hour + m2.minute;
      DivMod60(60 * m1.hour + m1.minute, m1.hour, m1.minute);
      DivMod60(60 * m2.hour + m2.minute, m2.hour, m2.minute);
    }
  }

  /** Two timestamps fall on the same calendar date exactly when they lie in the same day. */
  lemma SameDay(t1: nat, t2: nat)
    ensures MomentOf(t1).date == MomentOf(t2).date <==> t1 / SecondsPerDay == t2 / SecondsPerDay
  {
    DateOfDayInjective(t1 / SecondsPerDay, t2 / SecondsPerDay);
  }
}
