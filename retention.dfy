/**
 * The retention policy of borkbak: a snapshot's age in whole days picks one of
 * four buckets, and the bucket picks how much of the snapshot's time goes into
 * its retention key. Two snapshots with the same key compete for one place.
 */
module Retention {
  import opened Decimal
  import opened Calendar

  /**
   * `(now - timestamp).days` of Python: the age in whole days, rounded toward
   * minus infinity, so a snapshot from the future has a negative age.
   */
  function AgeDays(now: int, t: nat): (days: int)
    ensures days * SecondsPerDay <= now - t < (days + 1) * SecondsPerDay
  {
    (now - t) / SecondsPerDay
  }

  datatype Bucket = Monthly | Weekly | Daily | Original

  /** The strict thresholds 100, 30 and 7 days; every other age, negative ones included, is `Original`. */
  function BucketOf(days: int): (b: Bucket)
    ensures b == Monthly <==> days > 100
    ensures b == Weekly <==> 30 < days <= 100
    ensures b == Daily <==> 7 < days <= 30
    ensures b == Original <==> days <= 7
  {
    if days > 100 then Monthly
    else if days > 30 then Weekly
    else if days > 7 then Daily
    else Original
  }

  /** The text of a bucket's key before its first calendar field. */
  function Prefix(b: Bucket): string {
    match b
    case Monthly => "monthly-"
    case Weekly => "weekly-"
    case Daily => "daily-"
    case Original => "original-"
  }

  /** `strftime` of the key pattern of bucket `b`, after the prefix. */
  function Fields(b: Bucket, m: Moment): string
    requires ValidDate(m.date) && m.week <= 53 && m.hour < 24 && m.minute < 60
  {
    var year := Dec(m.date.year as nat);
    match b
    case Monthly => year + "-" + Pad2(m.date.month as nat)
    case Weekly => year + "-" + Pad2(m.week)
    case Daily => year + "-" + Pad2(m.date.month as nat) + "-" + Pad2(m.date.day as nat)
    case Original =>
      year + "-" + Pad2(m.date.month as nat) + "-" + Pad2(m.date.day as nat)
        + "-" + Pad2(m.hour) + "-" + Pad2(m.minute)
  }

  /**
   * The retention key of a snapshot taken at `t` whose age is `days`:
   * `monthly-%Y-%m`, `weekly-%Y-%W`, `daily-%Y-%m-%d` or
   * `original-%Y-%m-%d-%H-%M`.
   */
  function RetentionKey(t: nat, days: int): string {
    var b := BucketOf(days);
    Prefix(b) + Fields(b, MomentOf(t))
  }

  /**
   * The period each bucket stands for, stated without strings: the same calendar
   * month; the same Monday-first week inside the same calendar year (a week that
   * spans New Year is two periods, since `%W` restarts at 0); the same day; the
   * same minute.
   */
  predicate SamePeriod(b: Bucket, t1: nat, t2: nat) {
    var m1, m2 := MomentOf(t1), MomentOf(t2);
    match b
    case Monthly => m1.date.year == m2.date.year && m1.date.month == m2.date.month
    case Weekly =>
      m1.date.year == m2.date.year
      && MondayWeeksSinceEpoch(t1 / SecondsPerDay) == MondayWeeksSinceEpoch(t2 / SecondsPerDay)
    case Daily => t1 / SecondsPerDay == t2 / SecondsPerDay
    case Original => t1 / 60 == t2 / 60
  }

  lemma SplitAppend(x1: string, y1: string, x2: string, y2: string)
    requires x1 + y1 == x2 + y2 && |x1| == |x2|
    ensures x1 == x2 && y1 == y2
  {
    assert x1 == (x1 + y1)[..|x1|];
    assert x2 == (x2 + y2)[..|x2|];
    assert y1 == (x1 + y1)[|x1|..];
    assert y2 == (x2 + y2)[|x2|..];
  }

  lemma DigitsThenDash(a: nat, r: string)
    ensures |Dec(a) + "-" + r| > |Dec(a)| && (Dec(a) + "-" + r)[|Dec(a)|] == '-'
    ensures forall i :: 0 <= i < |Dec(a)| ==> IsDigit((Dec(a) + "-" + r)[i])
  {
  }

  /** A string of digits followed by a dash can be split back at that dash. */
  lemma SplitAtDash(a1: nat, r1: string, a2: nat, r2: string)
    requires Dec(a1) + "-" + r1 == Dec(a2) + "-" + r2
    ensures a1 == a2 && r1 == r2
  {
    var s1, s2 := Dec(a1), Dec(a2);
    DigitsThenDash(a1, r1);
    DigitsThenDash(a2, r2);
    assert |s1| == |s2|;
    assert s1 + "-" + r1 == s1 + ("-" + r1);
    assert s2 + "-" + r2 == s2 + ("-" + r2);
    SplitAppend(s1, "-" + r1, s2, "-" + r2);
    assert r1 == ("-" + r1)[1..] && r2 == ("-" + r2)[1..];
    DecInjective(a1, a2);
  }

  /** Different buckets never produce the same key: their prefixes differ in the first letter. */
  lemma PrefixDecides(b1: Bucket, f1: string, b2: Bucket, f2: string)
    requires Prefix(b1) + f1 == Prefix(b2) + f2
    ensures b1 == b2 && f1 == f2
  {
    assert (Prefix(b1) + f1)[0] == Prefix(b1)[0];
    assert (Prefix(b2) + f2)[0] == Prefix(b2)[0];
    SplitAppend(Prefix(b1), f1, Prefix(b2), f2);
  }

  predicate WellFormed(m: Moment) {
    ValidDate(m.date) && m.week <= 53 && m.hour < 24 && m.minute < 60
  }

  lemma MonthlyFieldsInjective(m1: Moment, m2: Moment)
    requires WellFormed(m1) && WellFormed(m2) && Fields(Monthly, m1) == Fields(Monthly, m2)
    ensures m1.date.year == m2.date.year && m1.date.month == m2.date.month
  {
    SplitAtDash(m1.date.year as nat, Pad2(m1.date.month as nat), m2.date.year as nat, Pad2(m2.date.month as nat));
    Pad2Injective(m1.date.month as nat, m2.date.month as nat);
  }

  lemma WeeklyFieldsInjective(m1: Moment, m2: Moment)
    requires WellFormed(m1) && WellFormed(m2) && Fields(Weekly, m1) == Fields(Weekly, m2)
    ensures m1.date.year == m2.date.year && m1.week == m2.week
  {
    SplitAtDash(m1.date.year as nat, Pad2(m1.week), m2.date.year as nat, Pad2(m2.week));
    Pad2Injective(m1.week, m2.week);
  }

  lemma DailyFieldsInjective(m1: Moment, m2: Moment)
    requires WellFormed(m1) && WellFormed(m2) && Fields(Daily, m1) == Fields(Daily, m2)
    ensures m1.date == m2.date
  {
    var mo1, mo2 := Pad2(m1.date.month as nat), Pad2(m2.date.month as nat);
    var d1, d2 := Pad2(m1.date.day as nat), Pad2(m2.date.day as nat);
    var r1, r2 := mo1 + "-" + d1, mo2 + "-" + d2;
    assert Fields(Daily, m1) == Dec(m1.date.year as nat) + "-" + r1;
    assert Fields(Daily, m2) == Dec(m2.date.year as nat) + "-" + r2;
    SplitAtDash(m1.date.year as nat, r1, m2.date.year as nat, r2);
    assert r1[0..2] == mo1 && r2[0..2] == mo2;
    assert r1[3..5] == d1 && r2[3..5] == d2;
    Pad2Injective(m1.date.month as nat, m2.date.month as nat);
    Pad2Injective(m1.date.day as nat, m2.date.day as nat);
  }

  /** Four two-character fields joined by dashes can be read back one by one. */
  lemma DashedPairs(a1: string, b1: string, c1: string, d1: string, a2: string, b2: string, c2: string, d2: string)
    requires |a1| == |b1| == |c1| == |d1| == |a2| == |b2| == |c2| == |d2| == 2
    requires a1 + "-" + b1 + "-" + c1 + "-" + d1 == a2 + "-" + b2 + "-" + c2 + "-" + d2
    ensures a1 == a2 && b1 == b2 && c1 == c2 && d1 == d2
  {
    var r1, r2 := a1 + "-" + b1 + "-" + c1 + "-" + d1, a2 + "-" + b2 + "-" + c2 + "-" + d2;
    assert r1[0..2] == a1 && r2[0..2] == a2;
    assert r1[3..5] == b1 && r2[3..5] == b2;
    assert r1[6..8] == c1 && r2[6..8] == c2;
    assert r1[9..11] == d1 && r2[9..11] == d2;
  }

  lemma OriginalFieldsInjective(m1: Moment, m2: Moment)
    requires WellFormed(m1) && WellFormed(m2) && Fields(Original, m1) == Fields(Original, m2)
    ensures m1.date == m2.date && m1.hour == m2.hour && m1.minute == m2.minute
  {
    var mo1, mo2 := Pad2(m1.date.month as nat), Pad2(m2.date.month as nat);
    var d1, d2 := Pad2(m1.date.day as nat), Pad2(m2.date.day as nat);
    var h1, h2 := Pad2(m1.hour), Pad2(m2.hour);
    var mi1, mi2 := Pad2(m1.minute), Pad2(m2.minute);
    var r1 := mo1 + "-" + d1 + "-" + h1 + "-" + mi1;
    var r2 := mo2 + "-" + d2 + "-" + h2 + "-" + mi2;
    assert Fields(Original, m1) == Dec(m1.date.year as nat) + "-" + r1;
    assert Fields(Original, m2) == Dec(m2.date.year as nat) + "-" + r2;
    SplitAtDash(m1.date.year as nat, r1, m2.date.year as nat, r2);
    DashedPairs(mo1, d1, h1, mi1, mo2, d2, h2, mi2);
    Pad2Injective(m1.date.month as nat, m2.date.month as nat);
    Pad2Injective(m1.date.day as nat, m2.date.day as nat);
    Pad2Injective(m1.hour, m2.hour);
    Pad2Injective(m1.minute, m2.minute);
  }

  lemma FieldsInjective(b: Bucket, t1: nat, t2: nat)
    requires Fields(b, MomentOf(t1)) == Fields(b, MomentOf(t2))
    ensures SamePeriod(b, t1, t2)
  {
    var m1, m2 := MomentOf(t1), MomentOf(t2);
    match b
    case Monthly =>
      MonthlyFieldsInjective(m1, m2);
    case Weekly =>
      WeeklyFieldsInjective(m1, m2);
      MondayWeekSameYear(t1 / SecondsPerDay, t2 / SecondsPerDay);
    case Daily =>
      DailyFieldsInjective(m1, m2);
      SameDay(t1, t2);
    case Original =>
      OriginalFieldsInjective(m1, m2);
      SameMinute(t1, t2);
  }

  lemma FieldsOfSamePeriod(b: Bucket, t1: nat, t2: nat)
    requires SamePeriod(b, t1, t2)
    ensures Fields(b, MomentOf(t1)) == Fields(b, MomentOf(t2))
  {
    match b
    case Monthly =>
    case Weekly =>
      MondayWeekSameYear(t1 / SecondsPerDay, t2 / SecondsPerDay);
    case Daily =>
      SameDay(t1, t2);
    case Original =>
      SameMinute(t1, t2);
  }

  /**
   * Two snapshots compete for one retention key exactly when their ages fall in
   * the same bucket and their times lie in the same period of that bucket.
   */
  lemma SameKeyIffSamePeriod(t1: nat, days1: int, t2: nat, days2: int)
    ensures RetentionKey(t1, days1) == RetentionKey(t2, days2)
        <==> BucketOf(days1) == BucketOf(days2) && SamePeriod(BucketOf(days1), t1, t2)
  {
    var b1, b2 := BucketOf(days1), BucketOf(days2);
    if RetentionKey(t1, days1) == RetentionKey(t2, days2) {
      PrefixDecides(b1, Fields(b1, MomentOf(t1)), b2, Fields(b2, MomentOf(t2)));
      FieldsInjective(b1, t1, t2);
    }
    if b1 == b2 && SamePeriod(b1, t1, t2) {
      FieldsOfSamePeriod(b1, t1, t2);
    }
  }

  /** The key's bucket, and so its prefix, depends only on the age in days. */
  lemma KeyPrefix(t: nat, days: int)
    ensures days > 100 ==> RetentionKey(t, days)[..8] == "monthly-"
    ensures 30 < days <= 100 ==> RetentionKey(t, days)[..7] == "weekly-"
    ensures 7 < days <= 30 ==> RetentionKey(t, days)[..6] == "daily-"
    ensures days <= 7 ==> RetentionKey(t, days)[..9] == "original-"
  {
  }
}
