/** Broken-down local time (`localtime_r`, src/runtime/libc_absent.c) against the proleptic Gregorian
    calendar, counted year by year and month by month. */
module CivilTime {
  // ---- The calendar ---------------------------------------------------------------------------

  predicate Leap(y: int) {
    (y % 4 == 0 && y % 100 != 0) || y % 400 == 0
  }

  function DaysInYear(y: int): nat { if Leap(y) then 366 else 365 }

  function DaysInMonth(y: int, m: nat): nat {
    if m == 1 then (if Leap(y) then 29 else 28)
    else if m == 3 || m == 5 || m == 8 || m == 10 then 30 else 31
  }

  /** The day number of January 1st; day 0 is 1970-01-01. */
  function YearStart(y: int): int
    decreases if y >= 1970 then y - 1970 else 1970 - y
  {
    if y == 1970 then 0
    else if y > 1970 then YearStart(y - 1) + DaysInYear(y - 1)
    else YearStart(y + 1) - DaysInYear(y)
  }

  function MonthStart(y: int, m: nat): nat {
    if m == 0 then 0 else MonthStart(y, m - 1) + DaysInMonth(y, m - 1)
  }

  /** A date of the calendar: month from 0, day from 1, as in `struct tm`. */
  predicate IsDate(y: int, m: int, d: int) {
    0 <= m < 12 && 1 <= d <= DaysInMonth(y, m)
  }

  function DayNumber(y: int, m: int, d: int): int
    requires IsDate(y, m, d)
  {
    YearStart(y) + MonthStart(y, m) + d - 1
  }

  // ---- Facts about the calendar ---------------------------------------------------------------

  /** Leap years before `y`, counted from year 1. */
  function Leaps(y: int): int {
    (y - 1) / 4 - (y - 1) / 100 + (y - 1) / 400
  }

  lemma LeapStep(y: int)
    ensures Leaps(y + 1) == Leaps(y) + if Leap(y) then 1 else 0
  {
    Quotient4(y);
    Quotient100(y);
    Quotient400(y);
    Nested(y);
  }

  lemma Quotient4(y: int)
    ensures y / 4 == (y - 1) / 4 + if y % 4 == 0 then 1 else 0
  {
  }

  lemma Quotient100(y: int)
    ensures y / 100 == (y - 1) / 100 + if y % 100 == 0 then 1 else 0
  {
  }

  lemma Quotient400(y: int)
    ensures y / 400 == (y - 1) / 400 + if y % 400 == 0 then 1 else 0
  {
  }

  /** Every fourth century is a century, every century a fourth year. */
  lemma Nested(y: int)
    ensures y % 400 == 0 ==> y % 100 == 0
    ensures y % 100 == 0 ==> y % 4 == 0
  {
    if y % 400 == 0 { Hundreds(y, 4 * (y / 400)); }
    if y % 100 == 0 { Fours(y, 25 * (y / 100)); }
  }

  lemma Hundreds(y: int, k: int)
    requires y == 100 * k
    ensures y % 100 == 0
  {
  }

  lemma Fours(y: int, k: int)
    requires y == 4 * k
    ensures y % 4 == 0
  {
  }

  lemma {:induction false} YearStartClosed(y: int)
    ensures YearStart(y) == 365 * (y - 1970) + Leaps(y) - Leaps(1970)
    decreases if y >= 1970 then y - 1970 else 1970 - y
  {
    if y > 1970 {
      YearStartClosed(y - 1);
      LeapStep(y - 1);
    } else if y < 1970 {
      YearStartClosed(y + 1);
      LeapStep(y);
    }
  }

  lemma MonthStarts(y: int)
    ensures var l := if Leap(y) then 1 else 0;
      && MonthStart(y, 0) == 0 && MonthStart(y, 1) == 31 && MonthStart(y, 2) == 59 + l
      && MonthStart(y, 3) == 90 + l && MonthStart(y, 4) == 120 + l && MonthStart(y, 5) == 151 + l
      && MonthStart(y, 6) == 181 + l && MonthStart(y, 7) == 212 + l && MonthStart(y, 8) == 243 + l
      && MonthStart(y, 9) == 273 + l && MonthStart(y, 10) == 304 + l && MonthStart(y, 11) == 334 + l
  {
  }

  /** Every date lies in its own year. */
  lemma DateInYear(y: int, m: int, d: int)
    requires IsDate(y, m, d)
    ensures YearStart(y) <= DayNumber(y, m, d) < YearStart(y) + DaysInYear(y)
  {
    MonthStarts(y);
  }

  lemma {:induction false} YearsAscend(y: int, z: int)
    requires y < z
    ensures YearStart(y) + DaysInYear(y) <= YearStart(z)
    decreases z - y
  {
    YearStartClosed(y);
    YearStartClosed(y + 1);
    LeapStep(y);
    if y + 1 < z {
      YearsAscend(y + 1, z);
    }
  }

  /** A day number belongs to one date only. */
  lemma DateUnique(y: int, m: int, d: int, y': int, m': int, d': int)
    requires IsDate(y, m, d) && IsDate(y', m', d') && DayNumber(y, m, d) == DayNumber(y', m', d')
    ensures y == y' && m == m' && d == d'
  {
    DateInYear(y, m, d);
    DateInYear(y', m', d');
    if y < y' { YearsAscend(y, y'); }
    if y' < y { YearsAscend(y', y); }
    MonthStarts(y);
  }

  // ---- The closed-form computation ------------------------------------------------------------

  /** C's division and remainder for a positive divisor. */
  function CDiv(a: int, b: int): int
    requires b > 0
  {
    if a >= 0 then a / b else -((-a) / b)
  }

  function CMod(a: int, b: int): int
    requires b > 0
  {
    a - b * CDiv(a, b)
  }

  datatype Tm = Tm(sec: int, min: int, hour: int, mday: int, mon: int, year: int, wday: int, yday: int, gmtoff: int)

  /** Conversion to a 32-bit int. */
  function ToInt32(x: int): int {
    (x + 0x8000_0000) % 0x1_0000_0000 - 0x8000_0000
  }

  const BEFORE: seq<int> := [0, 31, 59, 90, 120, 151, 181, 212, 243, 273, 304, 334]

  datatype Civil = Civil(y: int, mon: int, mday: int)

  /** Day of era to year of era, both counted from March. */
  function YearOfEra(doe: int): int {
    (doe - doe / 1460 + doe / 36524 - doe / 146096) / 365
  }

  /** Days before the `yoe`th March year of an era. */
  function EraYearStart(yoe: int): int {
    365 * yoe + yoe / 4 - yoe / 100
  }

  /** The date of day `doe` of era `era`. */
  function CivilInEra(era: int, doe: int): Civil {
    var yoe := YearOfEra(doe);
    var doy := doe - EraYearStart(yoe);
    var mp := (5 * doy + 2) / 153;
    Civil(yoe + era * 400 + (if mp >= 10 then 1 else 0), if mp < 10 then mp + 2 else mp - 10,
          doy - (153 * mp + 2) / 5 + 1)
  }

  /** The days-to-civil step, from a day number. */
  function CivilFromDays(dayNumber: int): Civil {
    var days := dayNumber + 719468;
    var era := CDiv(if days >= 0 then days else days - 146096, 146097);
    CivilInEra(era, days - era * 146097)
  }

  lemma EraIsFloor(days: int)
    ensures CDiv(if days >= 0 then days else days - 146096, 146097) == days / 146097
  {
  }

  /** A day of era as whole centuries, four-year cycles, years and days. */
  predicate Split(doe: int, c: int, q: int, y: int, u: int) {
    && 0 <= c <= 3 && 0 <= q <= 24 && 0 <= y <= 3 && 0 <= u <= 365
    && doe == 36524 * c + 1461 * q + 365 * y + u
    && (u == 365 ==> y == 3 && (q == 24 ==> c == 3))
  }

  lemma SplitDay(doe: int) returns (c: int, q: int, y: int, u: int)
    requires 0 <= doe < 146097
    ensures Split(doe, c, q, y, u)
  {
    c := if doe == 146096 then 3 else doe / 36524;
    var r := doe - 36524 * c;
    q := r / 1461;
    var t := r - 1461 * q;
    y := if t == 1460 then 3 else t / 365;
    u := t - 365 * y;
  }

  lemma YearOfSplit(doe: int, c: int, q: int, y: int, u: int)
    requires Split(doe, c, q, y, u)
    ensures YearOfEra(doe) == 100 * c + 4 * q + y
  {
    var e := 24 * c + q + 365 * y + u;
    LeapDays(doe, c, q, e);
    var n := doe - doe / 1460 + doe / 36524 - doe / 146096;
    assert n == 365 * (100 * c + 4 * q + y) + u - if e >= 1460 then 1 else 0;
    DivideBy365(n, 100 * c + 4 * q + y, u - if e >= 1460 then 1 else 0);
  }

  lemma DivideBy365(n: int, k: int, r: int)
    requires n == 365 * k + r && 0 <= r < 365
    ensures n / 365 == k
  {
  }

  lemma LeapDays(doe: int, c: int, q: int, e: int)
    requires 0 <= c <= 3 && 0 <= q <= 24 && doe == 1460 * (25 * c + q) + e && 0 <= e < 2920
    requires 36524 * c <= doe <= 36524 * c + 36524 && (doe == 36524 * c + 36524 ==> c == 3)
    ensures doe / 1460 == 25 * c + q + if e >= 1460 then 1 else 0
    ensures doe / 36524 - doe / 146096 == c
  {
  }

  lemma StartOfSplit(c: int, q: int, y: int)
    requires 0 <= c <= 3 && 0 <= q <= 24 && 0 <= y <= 3
    ensures EraYearStart(100 * c + 4 * q + y) == 36524 * c + 1461 * q + 365 * y
  {
    var yoe := 100 * c + 4 * q + y;
    assert yoe / 4 == 25 * c + q;
    assert yoe / 100 == c;
  }

  lemma LastOfCentury(c: int, q: int)
    requires 0 <= c <= 3 && 0 <= q <= 24
    ensures (100 * c + 4 * q + 4) % 100 == 0 ==> q == 24
  {
  }

  /** The year of era is right: the day falls in that March year, and day 365 only in a leap one. */
  lemma YearOfEraRight(doe: int)
    requires 0 <= doe < 146097
    ensures var yoe := YearOfEra(doe); var doy := doe - EraYearStart(yoe);
      && 0 <= yoe < 400 && 0 <= doy <= 365
      && (doy == 365 ==> (yoe + 1) % 4 == 0 && ((yoe + 1) % 100 != 0 || yoe + 1 == 400))
  {
    var c, q, y, u := SplitDay(doe);
    YearOfSplit(doe, c, q, y, u);
    StartOfSplit(c, q, y);
    if u == 365 {
      Fours(100 * c + 4 * q + 4, 25 * c + q + 1);
      LastOfCentury(c, q);
    }
  }

  /** Day number of March 1st of year `m`. */
  function MarchStart(m: int): int {
    365 * m + m / 4 - m / 100 + m / 400 - 719468
  }

  lemma MarchIsMarch(m: int)
    ensures MarchStart(m) == YearStart(m) + 59 + (if Leap(m) then 1 else 0)
    ensures MarchStart(m) + 306 == YearStart(m + 1)
  {
    YearStartClosed(m);
    YearStartClosed(m + 1);
    LeapStep(m);
    assert Leaps(1970) == 477;
  }

  lemma EraToMarch(era: int, yoe: int)
    requires 0 <= yoe < 400
    ensures MarchStart(400 * era + yoe) == 146097 * era + EraYearStart(yoe) - 719468
  {
    var m := 400 * era + yoe;
    assert m / 4 == 100 * era + yoe / 4;
    assert m / 100 == 4 * era + yoe / 100;
    assert m / 400 == era;
  }

  /** Month and day from the day of a March year. */
  lemma MonthFromDay(m: int, doy: int)
    requires 0 <= doy <= 365 && (doy == 365 ==> Leap(m + 1))
    ensures var mp := (5 * doy + 2) / 153;
      var y, mon, mday := if mp >= 10 then m + 1 else m, if mp < 10 then mp + 2 else mp - 10, doy - (153 * mp + 2) / 5 + 1;
      IsDate(y, mon, mday) && DayNumber(y, mon, mday) == MarchStart(m) + doy
  {
    var mp := (5 * doy + 2) / 153;
    MarchIsMarch(m);
    MonthStarts(m);
    MonthStarts(m + 1);
    assert 0 <= mp <= 11;
    assert 153 * mp <= 5 * doy + 2 < 153 * mp + 153;
    if mp == 0 {} else if mp == 1 {} else if mp == 2 {} else if mp == 3 {} else if mp == 4 {} else if mp == 5 {}
    else if mp == 6 {} else if mp == 7 {} else if mp == 8 {} else if mp == 9 {} else if mp == 10 {} else {}
  }

  lemma DateInEra(era: int, yoe: int, doy: int)
    requires 0 <= yoe < 400 && 0 <= doy <= 365
    requires doy == 365 ==> (yoe + 1) % 4 == 0 && ((yoe + 1) % 100 != 0 || yoe + 1 == 400)
    ensures var mp := (5 * doy + 2) / 153; var m := yoe + era * 400;
      var y, mon, mday := if mp >= 10 then m + 1 else m, if mp < 10 then mp + 2 else mp - 10, doy - (153 * mp + 2) / 5 + 1;
      IsDate(y, mon, mday) && DayNumber(y, mon, mday) == 146097 * era + EraYearStart(yoe) + doy - 719468
  {
    EraToMarch(era, yoe);
    if doy == 365 {
      LeapInEra(era, yoe + 1);
    }
    MonthFromDay(400 * era + yoe, doy);
  }

  lemma CivilInEraRight(era: int, doe: int)
    requires 0 <= doe < 146097
    ensures var c := CivilInEra(era, doe);
      IsDate(c.y, c.mon, c.mday) && DayNumber(c.y, c.mon, c.mday) == 146097 * era + doe - 719468
  {
    var yoe := YearOfEra(doe);
    YearOfEraRight(doe);
    DateInEra(era, yoe, doe - EraYearStart(yoe));
  }

  /** The computed date is the date of that day. */
  lemma CivilRight(dayNumber: int)
    ensures var c := CivilFromDays(dayNumber);
      IsDate(c.y, c.mon, c.mday) && DayNumber(c.y, c.mon, c.mday) == dayNumber
  {
    var days := dayNumber + 719468;
    CivilSplits(dayNumber);
    CivilInEraRight(days / 146097, days % 146097);
  }

  lemma CivilSplits(dayNumber: int)
    ensures var days := dayNumber + 719468;
      && CivilFromDays(dayNumber) == CivilInEra(days / 146097, days % 146097)
      && 146097 * (days / 146097) + days % 146097 == days
  {
    EraIsFloor(dayNumber + 719468);
  }

  lemma LeapInEra(era: int, y: int)
    requires 0 < y <= 400 && y % 4 == 0 && (y % 100 != 0 || y == 400)
    ensures Leap(400 * era + y)
  {
    if y == 400 {
      assert 400 * era + y == 400 * (era + 1);
    } else {
      FourthYear(era, y);
      NotCentury(era, y);
    }
  }

  lemma FourthYear(era: int, y: int)
    requires y % 4 == 0
    ensures (400 * era + y) % 4 == 0
  {
    assert 400 * era + y == 4 * (100 * era + y / 4);
  }

  lemma NotCentury(era: int, y: int)
    requires y % 100 != 0
    ensures (400 * era + y) % 100 != 0
  {
    assert 400 * era + y == 100 * (4 * era + y / 100) + y % 100;
  }

  /** And conversely: the computation inverts the calendar on every date. */
  lemma CivilInverts(y: int, m: int, d: int)
    requires IsDate(y, m, d)
    ensures CivilFromDays(DayNumber(y, m, d)) == Civil(y, m, d)
  {
    CivilRight(DayNumber(y, m, d));
    var c := CivilFromDays(DayNumber(y, m, d));
    DateUnique(c.y, c.mon, c.mday, y, m, d);
  }

  // ---- localtime_r ----------------------------------------------------------------------------

  /** The fields `localtime_r` stores for `secs`, with the zone offset the platform reported (0 when
      it reported none), and the 64-bit year it computes on the way. */
  method LocalTime(secs: int, offset: int) returns (tm: Tm, y: int)
    ensures IsDate(y, tm.mon, tm.mday)
    ensures 0 <= tm.hour < 24 && 0 <= tm.min < 60 && 0 <= tm.sec < 60
    ensures 86400 * DayNumber(y, tm.mon, tm.mday) + 3600 * tm.hour + 60 * tm.min + tm.sec == secs + offset
    ensures tm.wday == (DayNumber(y, tm.mon, tm.mday) + 4) % 7
    ensures tm.yday == DayNumber(y, tm.mon, tm.mday) - YearStart(y)
    ensures tm.gmtoff == offset
    ensures -0x8000_0000 <= tm.year < 0x8000_0000 && (y - 1900 - tm.year) % 0x1_0000_0000 == 0
    ensures tm.year == y - 1900 <==> -0x8000_0000 <= y - 1900 < 0x8000_0000
  {
    var days, rem := SplitSeconds(secs + offset);
    ClockRight(rem);
    WeekdayRight(days);
    var c := DateOf(days);
    y := c.y;
    var yday := YearDay(y, c.mon, c.mday);
    tm := Tm(rem % 60, rem % 3600 / 60, rem / 3600, c.mday, c.mon, ToInt32(y - 1900),
             CMod(CMod(days, 7) + 11, 7), yday, offset);
    YearFits(y - 1900);
  }

  method SplitSeconds(t: int) returns (days: int, rem: int)
    ensures t == 86400 * days + rem && 0 <= rem < 86400
  {
    days, rem := CDiv(t, 86400), CMod(t, 86400);
    if rem < 0 {
      rem := rem + 86400;
      days := days - 1;
    }
  }

  method DateOf(days: int) returns (c: Civil)
    ensures IsDate(c.y, c.mon, c.mday) && DayNumber(c.y, c.mon, c.mday) == days
  {
    CivilRight(days);
    c := CivilFromDays(days);
  }

  method YearDay(y: int, m: int, d: int) returns (yday: int)
    requires IsDate(y, m, d)
    ensures yday == DayNumber(y, m, d) - YearStart(y)
  {
    var leap := (CMod(y, 4) == 0 && CMod(y, 100) != 0) || CMod(y, 400) == 0;
    yday := BEFORE[m] + d - 1 + if leap && m > 1 then 1 else 0;
    CLeapRight(y);
    MonthStarts(y);
  }

  lemma YearFits(x: int)
    ensures ToInt32(x) == x <==> -0x8000_0000 <= x < 0x8000_0000
    ensures -0x8000_0000 <= ToInt32(x) < 0x8000_0000 && (x - ToInt32(x)) % 0x1_0000_0000 == 0
  {
  }

  lemma ClockRight(rem: int)
    requires 0 <= rem < 86400
    ensures var hour, min, sec := rem / 3600, rem % 3600 / 60, rem % 60;
      0 <= hour < 24 && 0 <= min < 60 && 0 <= sec < 60 && 3600 * hour + 60 * min + sec == rem
  {
    assert rem % 60 == (rem % 3600) % 60;
  }

  lemma WeekdayRight(days: int)
    ensures CMod(CMod(days, 7) + 11, 7) == (days + 4) % 7
  {
    assert CMod(days, 7) == days % 7 || CMod(days, 7) == days % 7 - 7;
  }

  lemma CLeapRight(y: int)
    ensures ((CMod(y, 4) == 0 && CMod(y, 100) != 0) || CMod(y, 400) == 0) <==> Leap(y)
  {
    ZeroMod4(y);
    ZeroMod100(y);
    ZeroMod400(y);
  }

  lemma ZeroMod4(y: int)
    ensures CMod(y, 4) == 0 <==> y % 4 == 0
  {
    assert y < 0 ==> ((-y) % 4 == 0 <==> y % 4 == 0);
  }

  lemma ZeroMod100(y: int)
    ensures CMod(y, 100) == 0 <==> y % 100 == 0
  {
    assert y < 0 ==> ((-y) % 100 == 0 <==> y % 100 == 0);
  }

  lemma ZeroMod400(y: int)
    ensures CMod(y, 400) == 0 <==> y % 400 == 0
  {
    assert y < 0 ==> ((-y) % 400 == 0 <==> y % 400 == 0);
  }
}
