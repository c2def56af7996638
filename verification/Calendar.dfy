/** The proleptic Gregorian calendar from 0001-01-01 on, and gmtime/timegm defined by it. */
module Calendar {
  import opened Arith

  predicate Leap(y: nat) { y % 4 == 0 && (y % 100 != 0 || y % 400 == 0) }

  function YearLength(y: nat): nat { if Leap(y) then 366 else 365 }

  type Month = m: nat | 1 <= m <= 12 witness 1

  function MonthLength(y: nat, m: Month): (n: nat)
    ensures 28 <= n <= 31
  {
    if m == 2 then (if Leap(y) then 29 else 28) else if m in {4, 6, 9, 11} then 30 else 31
  }

  /** Days from 0001-01-01 to January 1st of year y. */
  function DaysBeforeYear(y: nat): nat
    requires y >= 1
  {
    if y == 1 then 0 else DaysBeforeYear(y - 1) + YearLength(y - 1)
  }

  function DaysBeforeMonth(y: nat, m: Month): nat {
    if m == 1 then 0 else DaysBeforeMonth(y, m - 1) + MonthLength(y, m - 1)
  }

  predicate ValidDate(y: nat, m: nat, d: nat) {
    1 <= y && 1 <= m <= 12 && 1 <= d <= MonthLength(y, m)
  }

  /** Days from 0001-01-01. */
  function DayNumber(y: nat, m: Month, d: int): int
    requires y >= 1
  {
    DaysBeforeYear(y) + DaysBeforeMonth(y, m) + d - 1
  }

  /** The year that day n of year y falls in, and the day of that year. */
  function FindYear(n: nat, y: nat): (r: (nat, nat))
    requires y >= 1
    ensures r.0 >= y && r.1 < YearLength(r.0)
    ensures DaysBeforeYear(r.0) + r.1 == DaysBeforeYear(y) + n
    decreases n
  {
    if n < YearLength(y) then (y, n) else FindYear(n - YearLength(y), y + 1)
  }

  function FindMonth(y: nat, n: nat, m: Month): (r: (Month, nat))
    requires DaysBeforeMonth(y, m) + n < YearLength(y)
    ensures r.1 < MonthLength(y, r.0)
    ensures DaysBeforeMonth(y, r.0) + r.1 == DaysBeforeMonth(y, m) + n
    decreases 12 - m
  {
    MonthsFillYear(y);
    if n < MonthLength(y, m) then (m, n) else FindMonth(y, n - MonthLength(y, m), m + 1)
  }

  lemma MonthsFillYear(y: nat)
    ensures DaysBeforeMonth(y, 12) + MonthLength(y, 12) == YearLength(y)
  {
    var feb := MonthLength(y, 2);
    assert DaysBeforeMonth(y, 2) == 31;
    assert DaysBeforeMonth(y, 3) == 31 + feb;
    assert DaysBeforeMonth(y, 4) == 62 + feb;
    assert DaysBeforeMonth(y, 5) == 92 + feb;
    assert DaysBeforeMonth(y, 6) == 123 + feb;
    assert DaysBeforeMonth(y, 7) == 153 + feb;
    assert DaysBeforeMonth(y, 8) == 184 + feb;
    assert DaysBeforeMonth(y, 9) == 215 + feb;
    assert DaysBeforeMonth(y, 10) == 245 + feb;
    assert DaysBeforeMonth(y, 11) == 276 + feb;
  }

  // ---- a day has one date ----

  lemma {:induction false} LaterYearsStartLater(y: nat, z: nat)
    requires 1 <= y < z
    ensures DaysBeforeYear(y) + YearLength(y) <= DaysBeforeYear(z)
  {
    if y + 1 < z {
      LaterYearsStartLater(y, z - 1);
    }
  }

  lemma {:induction false} LaterMonthsStartLater(y: nat, m: Month, l: Month)
    requires m < l
    ensures DaysBeforeMonth(y, m) + MonthLength(y, m) <= DaysBeforeMonth(y, l)
  {
    if m + 1 < l {
      LaterMonthsStartLater(y, m, l - 1);
    }
  }

  lemma DayOfYear(y: nat, m: Month, d: nat)
    requires ValidDate(y, m, d)
    ensures DaysBeforeMonth(y, m) + d - 1 < YearLength(y)
  {
    MonthsFillYear(y);
    if m < 12 {
      LaterMonthsStartLater(y, m, 12);
    }
  }

  /** Two valid dates with the same day number are the same date. */
  lemma DateUnique(y: nat, m: nat, d: nat, y': nat, m': nat, d': nat)
    requires ValidDate(y, m, d) && ValidDate(y', m', d')
    requires DayNumber(y, m, d) == DayNumber(y', m', d')
    ensures y == y' && m == m' && d == d'
  {
    hide DaysBeforeYear, DaysBeforeMonth, YearLength, MonthLength;
    DayOfYear(y, m, d);
    DayOfYear(y', m', d');
    if y < y' {
      LaterYearsStartLater(y, y');
    } else if y' < y {
      LaterYearsStartLater(y', y);
    } else if m < m' {
      LaterMonthsStartLater(y, m, m');
    } else if m' < m {
      LaterMonthsStartLater(y, m', m);
    }
  }

  // ---- gmtime and timegm ----

  const UNIX_EPOCH_DAY: nat := 719162
  const DAY: nat := 86400

  /** DaysBeforeYear without the recursion. */
  lemma {:induction false} LeapDays(y: nat)
    requires y >= 1
    ensures DaysBeforeYear(y) == 365 * (y - 1) + (y - 1) / 4 - (y - 1) / 100 + (y - 1) / 400
  {
    hide YearLength;
    if y > 1 {
      LeapDays(y - 1);
      YearLengthParts(y - 1);
      Quarters(y - 1, 4);
      Quarters(y - 1, 100);
      Quarters(y - 1, 400);
    }
  }

  /** DaysBeforeMonth without the recursion: from March on the months repeat 31, 30, 31, 30, 31. */
  lemma MonthStart(y: nat, m: Month)
    ensures DaysBeforeMonth(y, m) ==
            if m <= 2 then 31 * (m - 1)
            else (153 * (m - 3) + 2) / 5 + (if y % 4 == 0 && (y % 100 != 0 || y % 400 == 0) then 60 else 59)
  {
    var feb := MonthLength(y, 2);
    assert DaysBeforeMonth(y, 2) == 31;
    assert DaysBeforeMonth(y, 3) == 31 + feb;
    assert DaysBeforeMonth(y, 4) == 62 + feb;
    assert DaysBeforeMonth(y, 5) == 92 + feb;
    assert DaysBeforeMonth(y, 6) == 123 + feb;
    assert DaysBeforeMonth(y, 7) == 153 + feb;
    assert DaysBeforeMonth(y, 8) == 184 + feb;
    assert DaysBeforeMonth(y, 9) == 215 + feb;
    assert DaysBeforeMonth(y, 10) == 245 + feb;
    assert DaysBeforeMonth(y, 11) == 276 + feb;
  }

  lemma YearLengthParts(y: nat)
    ensures YearLength(y) == 365 + (if y % 4 == 0 then 1 else 0) - (if y % 100 == 0 then 1 else 0)
                                 + (if y % 400 == 0 then 1 else 0)
  {
    MultipleOfPart(y, 4, 25);
    MultipleOfPart(y, 100, 4);
  }

  lemma MultipleOfPart(y: nat, a: nat, b: nat)
    requires a > 0 && b > 0
    ensures a * b > 0
    ensures y % (a * b) == 0 ==> y % a == 0
  {
    assert a * b > 0;
    if y % (a * b) == 0 {
      var q := y / (a * b);
      assert y == q * (a * b);
      assert q * (a * b) == (q * b) * a;
      MulMod(q * b, a);
    }
  }

  lemma Quarters(y: nat, n: nat)
    requires y >= 1 && n in {4, 100, 400}
    ensures y / n == (y - 1) / n + if y % n == 0 then 1 else 0
  {
  }

  /** 62135596800 seconds lie between 0001-01-01 and 1970-01-01. */
  lemma UnixEpoch()
    ensures DayNumber(1970, 1, 1) == UNIX_EPOCH_DAY && UNIX_EPOCH_DAY * DAY == 62135596800
  {
    LeapDays(1970);
  }

  /** struct tm: months from 0, years from 1900. */
  datatype Tm = Tm(sec: int, min: int, hour: int, mday: int, mon: int, year: int)

  /** Seconds since 1970 to broken-down UTC; not before the year 1. */
  function GmTime(t: int): (tm: Tm)
    requires t >= -62135596800
  {
    var n, s := t / DAY + UNIX_EPOCH_DAY, t % DAY;
    var (y, dayOfYear) := FindYear(n, 1);
    var (m, d) := FindMonth(y, dayOfYear, 1);
    Tm(s % 60, s / 60 % 60, s / 3600, d + 1, m - 1, y - 1900)
  }

  /** Broken-down UTC to seconds since 1970; every field may be out of its range and is carried over. */
  function TimeGm(tm: Tm): int
    requires tm.year + 1900 + tm.mon / 12 >= 1
  {
    var y, m := tm.year + 1900 + tm.mon / 12, tm.mon % 12 + 1;
    (DayNumber(y, m, tm.mday) - UNIX_EPOCH_DAY) * DAY + tm.hour * 3600 + tm.min * 60 + tm.sec
  }

  /** timegm of fields of any size: whole days of 86400 seconds from 1970-01-01, months carried into the year. */
  lemma TimeGmIs(tm: Tm)
    requires tm.year + 1900 + tm.mon / 12 >= 1
    ensures var y, m := tm.year + 1900 + tm.mon / 12, tm.mon % 12;
            var leap := if y % 4 == 0 && (y % 100 != 0 || y % 400 == 0) then 1 else 0;
            TimeGm(tm) == (365 * (y - 1) + (y - 1) / 4 - (y - 1) / 100 + (y - 1) / 400
                           + (if m < 2 then 31 * m else (153 * (m - 2) + 2) / 5 + 59 + leap)
                           + tm.mday - 1 - 719162) * 86400 + tm.hour * 3600 + tm.min * 60 + tm.sec
  {
    hide DaysBeforeYear, DaysBeforeMonth;
    var y := tm.year + 1900 + tm.mon / 12;
    LeapDays(y);
    MonthStart(y, tm.mon % 12 + 1);
  }

  predicate Normal(tm: Tm) {
    && 0 <= tm.sec < 60 && 0 <= tm.min < 60 && 0 <= tm.hour < 24
    && 0 <= tm.mon < 12 && 1 <= tm.year + 1900 && 1 <= tm.mday
    && ValidDate(tm.year + 1900, tm.mon + 1, tm.mday)
  }

  lemma GmTimeInverse(t: int)
    requires t >= -62135596800
    ensures Normal(GmTime(t)) && TimeGm(GmTime(t)) == t
  {
    hide DaysBeforeYear, DaysBeforeMonth, YearLength, MonthLength, FindYear, FindMonth;
    var tm, s := GmTime(t), t % DAY;
    assert tm.mon / 12 == 0 && tm.mon % 12 == tm.mon;
    assert DaysBeforeYear(1) == 0 && DaysBeforeMonth(tm.year + 1900, 1) == 0 by { FirstDays(tm.year + 1900); }
    assert s == s / 3600 * 3600 + s / 60 % 60 * 60 + s % 60;
  }

  lemma DayAndTime(d: int, s: nat)
    requires s < 86400
    ensures (d * 86400 + s) / 86400 == d && (d * 86400 + s) % 86400 == s
  {
  }

  lemma FirstDays(y: nat)
    ensures DaysBeforeYear(1) == 0 && DaysBeforeMonth(y, 1) == 0
  {
  }

  lemma TimeGmInverse(tm: Tm)
    requires Normal(tm)
    ensures TimeGm(tm) >= -62135596800 && GmTime(TimeGm(tm)) == tm
  {
    hide DaysBeforeYear, DaysBeforeMonth, YearLength, MonthLength, FindYear, FindMonth;
    assert tm.mon / 12 == 0 && tm.mon % 12 == tm.mon;
    var day := DayNumber(tm.year + 1900, tm.mon + 1, tm.mday);
    var s := tm.hour * 3600 + tm.min * 60 + tm.sec;
    assert 0 <= s < DAY && TimeGm(tm) == (day - UNIX_EPOCH_DAY) * DAY + s;
    var t := TimeGm(tm);
    DayAndTime(day - UNIX_EPOCH_DAY, s);
    GmTimeInverse(t);
    var back := GmTime(t);
    assert back.mon / 12 == 0 && back.mon % 12 == back.mon;
    DateUnique(tm.year + 1900, tm.mon + 1, tm.mday, back.year + 1900, back.mon + 1, back.mday);
  }
}
