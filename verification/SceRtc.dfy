/** Ticks of one microsecond since 0001-01-01 and the BCD date and time of the guest. */
module SceRtc {
  import opened Arith
  import opened Bits
  import opened Bytes
  import opened Calendar

  const EPOCH_SECONDS: nat := 62135596800
  const MICROS: nat := 1000000

  type Octet = b: nat | b < 256
  type Word32 = w: nat | w < TWO32 witness 0

  datatype DateTime = DateTime(second: Octet, minute: Octet, hour: Octet, day: Octet, month: Octet, year: Octet,
                               reserved0: seq<Octet>, microsecond: Word32, reserved1: seq<Octet>)

  /** ((v / 10) << 4) | (v % 10), cut to eight bits. */
  function ToBcd(v: nat): Octet {
    BitOr(v % 10, v / 10 * 16, 32) % 256
  }

  function FromBcd(b: Octet): (v: nat)
    ensures v <= 165
  {
    b / 16 % 16 * 10 + b % 16
  }

  lemma ToBcdIsSum(v: nat)
    requires v <= 165
    ensures ToBcd(v) == (v / 10 * 16 + v % 10) % 256
  {
    assert Pow2(4) == 16;
    Pow2Of16();
    Pow2Add(16, 16);
    OrDisjoint(v % 10, v / 10, 4, 32);
  }

  lemma BcdRoundTrip(v: nat)
    requires v < 100
    ensures FromBcd(ToBcd(v)) == v
  {
    hide ToBcd;
    ToBcdIsSum(v);
    var tens, units := v / 10, v % 10;
    assert ToBcd(v) == tens * 16 + units;
  }

  /** A byte survives decoding and encoding exactly when its low digit is decimal. */
  lemma BcdInverseIff(b: Octet)
    ensures ToBcd(FromBcd(b)) == b <==> b % 16 <= 9
  {
    hide ToBcd;
    ToBcdIsSum(FromBcd(b));
    var h, l := b / 16, b % 16;
    var v := FromBcd(b);
    assert h < 16 && b == h * 16 + l && v == h * 10 + l;
    if l <= 9 {
      assert v / 10 == h && v % 10 == l;
    } else {
      assert v / 10 == h + 1 && v % 10 == l - 10;
    }
  }

  /** The date and time of a tick, as the source fills it in. */
  ghost function Civil(ticks: nat): DateTime
    requires ticks < TWO64
  {
    var tm := GmTime(ticks / MICROS - EPOCH_SECONDS);
    GmTimeInverse(ticks / MICROS - EPOCH_SECONDS);
    DateTime(ToBcd(tm.sec), ToBcd(tm.min), ToBcd(tm.hour), ToBcd(tm.mday), ToBcd(tm.mon + 1),
             ToBcd((tm.year + 1900) % 100), [0, 0], ticks % MICROS, [0, 0, 0, 0])
  }

  method TickToCivil(ticks: nat) returns (out: DateTime)
    requires ticks < TWO64
    ensures out == Civil(ticks)
  {
    hide ToBcd, GmTime;
    var totalSeconds := ticks / MICROS;
    var micros := ticks % MICROS;
    var unixSec := totalSeconds - EPOCH_SECONDS;
    GmTimeInverse(unixSec);
    var tm := GmTime(unixSec);
    out := DateTime(0, 0, 0, 0, 0, 0, [0, 0], 0, [0, 0, 0, 0]);
    out := out.(second := ToBcd(tm.sec));
    out := out.(minute := ToBcd(tm.min));
    out := out.(hour := ToBcd(tm.hour));
    out := out.(day := ToBcd(tm.mday));
    out := out.(month := ToBcd(tm.mon + 1));
    out := out.(year := ToBcd((tm.year + 1900) % 100));
    out := out.(microsecond := micros);
  }

  /** The fields of a date and time as the source reads them, two-digit years meaning 2000 and up. */
  function Fields(dt: DateTime): Tm {
    Tm(FromBcd(dt.second), FromBcd(dt.minute), FromBcd(dt.hour), FromBcd(dt.day), FromBcd(dt.month) - 1,
       FromBcd(dt.year) + 100)
  }

  /** The tick of a date and time; no 64-bit sum or product on the way wraps. */
  method CivilToTick(dt: DateTime) returns (tick: nat)
    ensures tick == Tick(dt) < TWO64
  {
    hide FromBcd, TimeGm;
    var tm := Tm(0, 0, 0, 0, 0, 0);
    tm := tm.(sec := FromBcd(dt.second));
    tm := tm.(min := FromBcd(dt.minute));
    tm := tm.(hour := FromBcd(dt.hour));
    tm := tm.(mday := FromBcd(dt.day));
    tm := tm.(mon := FromBcd(dt.month) - 1);
    tm := tm.(year := FromBcd(dt.year) + 100);
    TickFits(dt);
    var t := TimeGm(tm);
    NoWrap(t, dt.microsecond);
    var seconds := (t % TWO64 + EPOCH_SECONDS) % TWO64;
    tick := (seconds * MICROS % TWO64 + dt.microsecond) % TWO64;
  }

  /** Microseconds from 0001-01-01 to the instant the fields denote. */
  ghost function Tick(dt: DateTime): int {
    (TimeGm(Fields(dt)) + EPOCH_SECONDS) * MICROS + dt.microsecond
  }

  lemma NoWrap(t: nat, micros: Word32)
    requires t < 0x2_0000_0000
    ensures ((t % TWO64 + EPOCH_SECONDS) % TWO64 * MICROS % TWO64 + micros) % TWO64 ==
            (t + EPOCH_SECONDS) * MICROS + micros
  {
    SmallMod(t, TWO64);
    SmallMod(t + EPOCH_SECONDS, TWO64);
    SmallMod((t + EPOCH_SECONDS) * MICROS, TWO64);
    SmallMod((t + EPOCH_SECONDS) * MICROS + micros, TWO64);
  }

  lemma DayBounds(y: nat, m: Month)
    requires 1999 <= y <= 2178
    ensures 729700 <= DaysBeforeYear(y) < 795300 && DaysBeforeMonth(y, m) < 366
  {
    hide DaysBeforeYear, DaysBeforeMonth;
    LeapDays(y);
    DayOfYear(y, m, 1);
  }

  lemma TickFits(dt: DateTime)
    ensures 0 <= TimeGm(Fields(dt)) < 0x2_0000_0000 && 0 <= Tick(dt) < TWO64
  {
    var tm := Fields(dt);
    var y, m := tm.year + 1900 + tm.mon / 12, tm.mon % 12 + 1;
    assert 1999 <= y <= 2178;
    hide FromBcd, DaysBeforeYear, DaysBeforeMonth;
    var day := DayNumber(y, m, tm.mday);
    DayBounds(y, m);
    assert UNIX_EPOCH_DAY <= day < 796000;
  }

  /** The number whose two decimal digits are the two halves of b. */
  predicate Shows(b: Octet, v: int) { v == b / 16 * 10 + b % 16 }

  /** The date and time of a tick, digit by digit: the time of day, the microseconds, and the valid date whose day
      number is the number of whole days, of its year the last two digits. */
  lemma CivilIs(ticks: nat)
    requires ticks < TWO64
    ensures var dt, s, y := Civil(ticks), ticks / 1000000, YearOf(ticks);
            && Shows(dt.second, s % 60) && Shows(dt.minute, s / 60 % 60) && Shows(dt.hour, s / 3600 % 24)
            && dt.microsecond == ticks % 1000000 && dt.reserved0 == [0, 0] && dt.reserved1 == [0, 0, 0, 0]
            && exists m, d :: (Shows(dt.month, m) && Shows(dt.day, d) && Shows(dt.year, y % 100)
                               && y >= 1 && ValidDate(y, m, d) && DayNumber(y, m, d) == s / 86400)
  {
    hide GmTime, ToBcd, FromBcd, DayNumber, Shows, TimeGm;
    var tm := GmTime(ticks / MICROS - EPOCH_SECONDS);
    var s, dt := ticks / MICROS, Civil(ticks);
    GmTimeInverse(s - EPOCH_SECONDS);
    DigitsShow(tm.sec);
    DigitsShow(tm.min);
    DigitsShow(tm.hour);
    DigitsShow(tm.mday);
    DigitsShow(tm.mon + 1);
    DigitsShow((tm.year + 1900) % 100);
    var day := DayNumber(tm.year + 1900, tm.mon + 1, tm.mday);
    TimeGmOfNormal(tm);
    TimeOfDay(s, day, tm.hour, tm.min, tm.sec);
    assert Shows(dt.month, tm.mon + 1) && Shows(dt.day, tm.mday);
  }

  lemma TimeGmOfNormal(tm: Tm)
    requires Normal(tm)
    ensures TimeGm(tm) + EPOCH_SECONDS ==
            DayNumber(tm.year + 1900, tm.mon + 1, tm.mday) * 86400 + tm.hour * 3600 + tm.min * 60 + tm.sec
  {
    hide DayNumber;
    assert tm.mon / 12 == 0 && tm.mon % 12 == tm.mon;
  }

  lemma DigitsShow(v: nat)
    requires v < 100
    ensures Shows(ToBcd(v), v)
  {
    hide ToBcd;
    ToBcdIsSum(v);
  }

  lemma TimeOfDay(s: nat, day: int, h: int, m: int, sec: int)
    requires 0 <= h < 24 && 0 <= m < 60 && 0 <= sec < 60 && s == day * 86400 + h * 3600 + m * 60 + sec
    ensures s / 86400 == day && s / 3600 % 24 == h && s / 60 % 60 == m && s % 60 == sec
  {
    DivModUnique(s, 86400, day, h * 3600 + m * 60 + sec);
    DivModUnique(s, 3600, day * 24 + h, m * 60 + sec);
    DivModUnique(s, 60, day * 1440 + h * 60 + m, sec);
    DivModUnique(day * 24 + h, 24, day, h);
    DivModUnique(day * 1440 + h * 60 + m, 60, day * 24 + h, m);
  }

  /** The tick of any fields: the day number of the date, a month of 0 or above 12 carried into the year, and the time,
      in microseconds. */
  lemma TickIs(dt: DateTime, ss: nat, mi: nat, hh: nat, dd: nat, mo: nat, yy: nat)
    requires Shows(dt.second, ss) && Shows(dt.minute, mi) && Shows(dt.hour, hh)
    requires Shows(dt.day, dd) && Shows(dt.month, mo) && Shows(dt.year, yy)
    ensures Tick(dt) == (DayNumber(2000 + yy + (mo - 1) / 12, (mo - 1) % 12 + 1, dd) * 86400
                         + hh * 3600 + mi * 60 + ss) * 1000000 + dt.microsecond
  {
    hide DayNumber, FromBcd, Shows;
    DigitsRead(dt.second, ss);
    DigitsRead(dt.minute, mi);
    DigitsRead(dt.hour, hh);
    DigitsRead(dt.day, dd);
    DigitsRead(dt.month, mo);
    DigitsRead(dt.year, yy);
    assert Fields(dt) == Tm(ss, mi, hh, dd, mo - 1, yy + 100);
  }

  lemma DigitsRead(b: Octet, v: nat)
    requires Shows(b, v)
    ensures FromBcd(b) == v
  {
  }

  // ---- the round trips ----

  /** The year of a tick. */
  function YearOf(ticks: nat): int
    requires ticks < TWO64
  {
    GmTime(ticks / MICROS - EPOCH_SECONDS).year + 1900
  }

  lemma SameDigitsLeap(y: nat, q: nat, r: nat)
    requires y == 100 * q + r && r < 100 && y % 4 == 0
    ensures Leap(2000 + r)
  {
    assert r == 4 * (y / 4 - 25 * q);
    if r == 0 {
      assert (2000 + r) % 400 == 0;
    } else {
      assert (2000 + r) % 100 == r;
    }
  }

  /** A year and the year of the same two digits after 2000: a day of the first is a day of the second. */
  lemma SameDigitsDate(y: nat, m: nat, d: nat)
    requires ValidDate(y, m, d)
    ensures ValidDate(2000 + y % 100, m, d)
  {
    if Leap(y) {
      SameDigitsLeap(y, y / 100, y % 100);
    }
  }

  /** The fields read back from the date of a tick. */
  lemma FieldsOfCivil(ticks: nat)
    requires ticks < TWO64
    ensures var tm := GmTime(ticks / MICROS - EPOCH_SECONDS);
            Normal(tm) && Fields(Civil(ticks)) == tm.(year := (tm.year + 1900) % 100 + 100)
  {
    hide GmTime, TimeGm, ToBcd, FromBcd, DaysBeforeYear, DaysBeforeMonth;
    var tm := GmTime(ticks / MICROS - EPOCH_SECONDS);
    GmTimeInverse(ticks / MICROS - EPOCH_SECONDS);
    BcdRoundTrip(tm.sec);
    BcdRoundTrip(tm.min);
    BcdRoundTrip(tm.hour);
    BcdRoundTrip(tm.mday);
    BcdRoundTrip(tm.mon + 1);
    BcdRoundTrip((tm.year + 1900) % 100);
  }

  /** A tick survives the conversion to a date and back exactly when its year is in 2000 to 2099. */
  lemma TickRoundTripIff(ticks: nat)
    requires ticks < TWO64
    ensures Tick(Civil(ticks)) == ticks <==> 2000 <= YearOf(ticks) <= 2099
  {
    hide GmTime, TimeGm, ToBcd, FromBcd, Fields, DaysBeforeYear, DaysBeforeMonth;
    var t := ticks / MICROS - EPOCH_SECONDS;
    var tm := GmTime(t);
    FieldsOfCivil(ticks);
    GmTimeInverse(t);
    var y := tm.year + 1900;
    var tm' := tm.(year := y % 100 + 100);
    assert Tick(Civil(ticks)) == (TimeGm(tm') + EPOCH_SECONDS) * MICROS + ticks % MICROS;
    SameDigitsDate(y, tm.mon + 1, tm.mday);
    if TimeGm(tm') == TimeGm(tm) {
      TimeGmInverse(tm);
      TimeGmInverse(tm');
      assert y == 2000 + y % 100;
    }
  }

  /** What tickToCivil can produce, for the years it can represent. */
  predicate Canonical(dt: DateTime) {
    && dt.second % 16 <= 9 && dt.minute % 16 <= 9 && dt.hour % 16 <= 9
    && dt.day % 16 <= 9 && dt.month % 16 <= 9 && dt.year % 16 <= 9
    && Normal(Fields(dt)) && Fields(dt).year < 200
    && dt.microsecond < MICROS && dt.reserved0 == [0, 0] && dt.reserved1 == [0, 0, 0, 0]
  }

  /** A date and time survives the conversion to a tick and back exactly when it is canonical. */
  lemma DateRoundTripIff(dt: DateTime)
    ensures 0 <= Tick(dt) < TWO64
    ensures Civil(Tick(dt)) == dt <==> Canonical(dt)
  {
    hide GmTime, TimeGm, ToBcd, DaysBeforeYear, DaysBeforeMonth;
    TickFits(dt);
    var ticks := Tick(dt);
    if Canonical(dt) {
      DateToTickAndBack(dt);
    }
    if Civil(ticks) == dt {
      CivilIsCanonical(ticks);
    }
  }

  lemma DateToTickAndBack(dt: DateTime)
    requires Canonical(dt)
    ensures 0 <= Tick(dt) < TWO64 && Civil(Tick(dt)) == dt
  {
    hide GmTime, TimeGm, ToBcd, FromBcd, DaysBeforeYear, DaysBeforeMonth;
    TickFits(dt);
    var tm := Fields(dt);
    TimeGmInverse(tm);
    var ticks := Tick(dt);
    assert ticks / MICROS == TimeGm(tm) + EPOCH_SECONDS && ticks % MICROS == dt.microsecond;
    assert (tm.year + 1900) % 100 == FromBcd(dt.year);
    BcdInverseIff(dt.second);
    BcdInverseIff(dt.minute);
    BcdInverseIff(dt.hour);
    BcdInverseIff(dt.day);
    BcdInverseIff(dt.month);
    BcdInverseIff(dt.year);
  }

  lemma CivilIsCanonical(ticks: nat)
    requires ticks < TWO64
    ensures Canonical(Civil(ticks))
  {
    hide GmTime, TimeGm, ToBcd, FromBcd, DaysBeforeYear, DaysBeforeMonth;
    FieldsOfCivil(ticks);
    var tm := GmTime(ticks / MICROS - EPOCH_SECONDS);
    SameDigitsDate(tm.year + 1900, tm.mon + 1, tm.mday);
    UnitsDecimal(tm.sec);
    UnitsDecimal(tm.min);
    UnitsDecimal(tm.hour);
    UnitsDecimal(tm.mday);
    UnitsDecimal(tm.mon + 1);
    UnitsDecimal((tm.year + 1900) % 100);
  }

  lemma UnitsDecimal(v: nat)
    requires v < 100
    ensures ToBcd(v) % 16 <= 9
  {
    hide ToBcd;
    ToBcdIsSum(v);
    var tens, units := v / 10, v % 10;
    assert ToBcd(v) == tens * 16 + units;
    DivModUnique(ToBcd(v), 16, tens, units);
  }
}
