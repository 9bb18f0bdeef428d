/** Broken-down UTC time (timeparse.c): the freshness test compares such times through mktime,
    which reads them in the local zone. */
module Calendar {
  /** struct tm, with the full year and months and days from the C library's origins. */
  datatype Tm = Tm(sec: int, min: int, hour: int, mday: int, mon: int, year: int)

  predicate Leap(y: int) {
    y % 4 == 0 && (y % 100 != 0 || y % 400 == 0)
  }

  function Days(leap: bool): int {
    if leap then 366 else 365
  }

  function YearLength(y: int): int {
    Days(Leap(y))
  }

  function Fours(y: int): int { (y - 1969) / 4 }
  function Centuries(y: int): int { (y - 1901) / 100 }
  function FourCenturies(y: int): int { (y - 1601) / 400 }

  /** Days from the Epoch to the first of January, as POSIX defines seconds since the Epoch. */
  function YearStart(y: int): int {
    365 * (y - 1970) + Fours(y) - Centuries(y) + FourCenturies(y)
  }

  function MonthLength(m: int, leap: bool): int {
    if m == 1 then if leap then 29 else 28
    else if m == 3 || m == 5 || m == 8 || m == 10 then 30
    else 31
  }

  /** Days of the year before month `m`. */
  function MonthStart(m: nat, leap: bool): nat {
    if m == 0 then 0 else MonthStart(m - 1, leap) + MonthLength(m - 1, leap)
  }

  predicate Proper(t: Tm) {
    && 0 <= t.sec < 60 && 0 <= t.min < 60 && 0 <= t.hour < 24
    && 0 <= t.mon < 12 && 1 <= t.mday <= MonthLength(t.mon, Leap(t.year))
  }

  lemma NextFour(y: int)
    ensures Fours(y + 1) == Fours(y) + if y % 4 == 0 then 1 else 0
  {
  }

  lemma NextCentury(y: int)
    ensures Centuries(y + 1) == Centuries(y) + if y % 100 == 0 then 1 else 0
  {
  }

  lemma NextFourCenturies(y: int)
    ensures FourCenturies(y + 1) == FourCenturies(y) + if y % 400 == 0 then 1 else 0
  {
  }

  lemma OfHundred(y: int)
    requires y % 100 == 0
    ensures y % 4 == 0
  {
    var k := 25 * (y / 100);
    assert y == 4 * k;
  }

  lemma OfFourHundred(y: int)
    requires y % 400 == 0
    ensures y % 100 == 0
  {
    var k := 4 * (y / 400);
    assert y == 100 * k;
  }

  lemma LeapCount(y: int, fours: int, centuries: int, fourCenturies: int)
    requires fours == (if y % 4 == 0 then 1 else 0) && centuries == (if y % 100 == 0 then 1 else 0)
    requires fourCenturies == if y % 400 == 0 then 1 else 0
    ensures YearLength(y) == 365 + fours - centuries + fourCenturies
  {
    if y % 100 == 0 { OfHundred(y); }
    if y % 400 == 0 { OfFourHundred(y); }
  }

  lemma NextYear(y: int)
    ensures YearStart(y + 1) == YearStart(y) + YearLength(y)
  {
    NextFour(y);
    NextCentury(y);
    NextFourCenturies(y);
    LeapCount(y, Fours(y + 1) - Fours(y), Centuries(y + 1) - Centuries(y), FourCenturies(y + 1) - FourCenturies(y));
  }

  predicate InYear(day: int, y: int) {
    YearStart(y) <= day < YearStart(y + 1)
  }

  lemma {:induction false} YearsGrow(y: int, z: int)
    requires y < z
    ensures YearStart(y + 1) <= YearStart(z)
    decreases z - y
  {
    if y + 1 < z {
      YearsGrow(y, z - 1);
      NextYear(z - 1);
    }
  }

  /** A growing sequence of years covers every day. */
  lemma {:induction false} YearExists(day: int, y: int, start: int -> int)
    requires forall z :: start(z) < start(z + 1)
    ensures exists z :: start(z) <= day < start(z + 1)
    decreases if day < start(y) then start(y) - day else day - start(y) + 1
  {
    assert start(y - 1) < start(y - 1 + 1) && y - 1 + 1 == y;
    if day < start(y - 1) {
      YearExists(day, y - 1, start);
    } else if day >= start(y + 1) {
      YearExists(day, y + 1, start);
    }
  }

  lemma YearsAreLong(y: int)
    ensures YearStart(y) < YearStart(y + 1)
  {
    NextYear(y);
  }

  lemma EveryDayHasAYear(day: int)
    ensures exists y :: InYear(day, y)
  {
    forall z ensures YearStart(z) < YearStart(z + 1) {
      YearsAreLong(z);
    }
    YearExists(day, 1970, YearStart);
    var z :| YearStart(z) <= day < YearStart(z + 1);
    assert InYear(day, z);
  }

  ghost function YearOf(day: int): (y: int)
    ensures InYear(day, y)
  {
    EveryDayHasAYear(day);
    var y :| InYear(day, y);
    y
  }

  lemma OneYear(day: int, y: int)
    requires InYear(day, y)
    ensures YearOf(day) == y
  {
    var z := YearOf(day);
    if z < y { YearsGrow(z, y); } else if y < z { YearsGrow(y, z); }
  }

  lemma DecemberEnds(leap: bool)
    ensures MonthStart(11, leap) + 31 == Days(leap)
  {
    var extra := if leap then 1 else 0;
    assert MonthStart(1, leap) == 31;
    assert MonthStart(2, leap) == 59 + extra;
    assert MonthStart(3, leap) == 90 + extra;
    assert MonthStart(4, leap) == 120 + extra;
    assert MonthStart(5, leap) == 151 + extra;
    assert MonthStart(6, leap) == 181 + extra;
    assert MonthStart(7, leap) == 212 + extra;
    assert MonthStart(8, leap) == 243 + extra;
    assert MonthStart(9, leap) == 273 + extra;
    assert MonthStart(10, leap) == 304 + extra;
    assert MonthStart(11, leap) == 334 + extra;
  }

  predicate InMonth(yday: int, leap: bool, m: nat) {
    m < 12 && MonthStart(m, leap) <= yday < MonthStart(m, leap) + MonthLength(m, leap)
  }

  lemma {:induction false} MonthExists(yday: int, leap: bool, m: nat)
    requires m < 12 && MonthStart(m, leap) <= yday < Days(leap)
    ensures exists r: nat :: InMonth(yday, leap, r)
    decreases 12 - m
  {
    if InMonth(yday, leap, m) {
    } else if m == 11 {
      DecemberEnds(leap);
    } else {
      MonthExists(yday, leap, m + 1);
    }
  }

  ghost function MonthOf(yday: int, leap: bool): (m: nat)
    requires 0 <= yday < Days(leap)
    ensures InMonth(yday, leap, m)
  {
    MonthExists(yday, leap, 0);
    var m: nat :| InMonth(yday, leap, m);
    m
  }

  // ----- The library's conversions -----

  /** gmtime */
  ghost function GmTime(s: int): Tm {
    TimeOn(s / 86400, s % 86400)
  }

  datatype Date = Date(mday: int, mon: nat, year: int)

  ghost function DateOn(day: int): Date {
    var y := YearOf(day);
    NextYear(y);
    DateIn(y, Leap(y), day - YearStart(y))
  }

  /** Day `yday` of a year. */
  ghost function DateIn(y: int, leap: bool, yday: nat): Date
    requires yday < Days(leap)
  {
    var m := MonthOf(yday, leap);
    Date(yday - MonthStart(m, leap) + 1, m, y)
  }

  /** Second `rest` of a day. */
  ghost function TimeOn(day: int, rest: int): Tm {
    var d := DateOn(day);
    Tm(rest % 60, rest / 60 % 60, rest / 3600, d.mday, d.mon, d.year)
  }

  /** mktime, in a zone that is always `offset` seconds ahead of UTC. */
  function MkTime(t: Tm, offset: int): int
    requires t.mon >= 0
  {
    DayOf(t) * 86400 + t.hour * 3600 + t.min * 60 + t.sec - offset
  }

  function DayOf(t: Tm): int
    requires t.mon >= 0
  {
    YearStart(t.year) + MonthStart(t.mon, Leap(t.year)) + t.mday - 1
  }

  /** timeAgtB */
  function TimeAgtB(a: Tm, b: Tm, offset: int): int
    requires a.mon >= 0 && b.mon >= 0
  {
    if MkTime(a, offset) == MkTime(b, offset) then 0 else if MkTime(a, offset) > MkTime(b, offset) then 1 else -1
  }

  // ----- What they mean -----

  lemma OnDay(day: int, rest: int)
    requires 0 <= rest < 86400
    ensures var t := TimeOn(day, rest); Proper(t) && DayOf(t) == day && t.hour * 3600 + t.min * 60 + t.sec == rest
  {
    var y := YearOf(day);
    NextYear(y);
    ClockRoundTrip(rest);
  }

  lemma ClockRoundTrip(rest: int)
    requires 0 <= rest < 86400
    ensures rest / 3600 * 3600 + rest / 60 % 60 * 60 + rest % 60 == rest && 0 <= rest / 3600 < 24
  {
  }

  /** mktime undoes gmtime up to the zone. */
  lemma GmThenMk(s: int, offset: int)
    ensures Proper(GmTime(s)) && MkTime(GmTime(s), offset) == s - offset
  {
    OnDay(s / 86400, s % 86400);
  }

  lemma SplitDay(day: int, rest: int)
    requires 0 <= rest < 86400
    ensures (day * 86400 + rest) / 86400 == day && (day * 86400 + rest) % 86400 == rest
  {
  }

  lemma SplitClock(h: int, m: int, sec: int)
    requires 0 <= sec < 60 && 0 <= m < 60 && 0 <= h < 24
    ensures var rest := h * 3600 + m * 60 + sec;
            0 <= rest < 86400 && rest % 60 == sec && rest / 60 % 60 == m
            && rest / 3600 == h
  {
  }

  /** gmtime undoes mktime: a proper time is that of exactly one second. */
  lemma MkThenGm(t: Tm)
    requires Proper(t)
    ensures GmTime(MkTime(t, 0)) == t
  {
    var rest := t.hour * 3600 + t.min * 60 + t.sec;
    SplitClock(t.hour, t.min, t.sec);
    SplitDay(DayOf(t), rest);
    assert MkTime(t, 0) == DayOf(t) * 86400 + rest;
    OnlyTime(t, DayOf(t), rest);
  }

  lemma OnlyTime(t: Tm, day: int, rest: int)
    requires Proper(t) && day == DayOf(t)
    requires rest % 60 == t.sec && rest / 60 % 60 == t.min && rest / 3600 == t.hour
    ensures TimeOn(day, rest) == t
  {
    DateOfDay(t.year, t.mon, t.mday, day);
  }

  lemma {:induction false} MonthsGrow(m: nat, n: nat, leap: bool)
    requires m < n <= 12
    ensures MonthStart(m, leap) + MonthLength(m, leap) <= MonthStart(n, leap)
    decreases n
  {
    if m + 1 < n { MonthsGrow(m, n - 1, leap); }
  }

  lemma OneMonth(yday: int, leap: bool, m: nat, n: nat)
    requires InMonth(yday, leap, m) && InMonth(yday, leap, n)
    ensures m == n
  {
    if m < n { MonthsGrow(m, n, leap); } else if n < m { MonthsGrow(n, m, leap); }
  }

  lemma {:induction false} MonthFits(m: nat, leap: bool)
    requires m < 12
    ensures MonthStart(m, leap) + MonthLength(m, leap) <= Days(leap)
    decreases 12 - m
  {
    if m == 11 { DecemberEnds(leap); } else { MonthFits(m + 1, leap); }
  }

  lemma DateInYear(y: int, leap: bool, m: nat, mday: int, yday: int)
    requires m < 12 && 1 <= mday <= MonthLength(m, leap) && yday == MonthStart(m, leap) + mday - 1
    ensures 0 <= yday < Days(leap) && DateIn(y, leap, yday) == Date(mday, m, y)
  {
    MonthFits(m, leap);
    OneMonth(yday, leap, m, MonthOf(yday, leap));
  }

  lemma YearOfDay(y: int, yday: int, day: int)
    requires 0 <= yday < Days(Leap(y)) && day == YearStart(y) + yday
    ensures YearOf(day) == y
  {
    NextYear(y);
    OneYear(day, y);
  }

  lemma DateOfDay(y: int, m: nat, mday: int, day: int)
    requires m < 12 && 1 <= mday <= MonthLength(m, Leap(y)) && day == YearStart(y) + MonthStart(m, Leap(y)) + mday - 1
    ensures DateOn(day) == Date(mday, m, y)
  {
    var yday := day - YearStart(y);
    DateInYear(y, Leap(y), m, mday, yday);
    YearOfDay(y, yday, day);
    DateOnIs(y, yday, day);
  }

  lemma DateOnIs(y: int, yday: nat, day: int)
    requires YearOf(day) == y && yday == day - YearStart(y) && yday < Days(Leap(y))
    ensures DateOn(day) == DateIn(y, Leap(y), yday)
  {
  }

  /** Broken-down UTC times compare like the seconds they stand for, in any fixed zone. */
  lemma ComparesSeconds(s: int, u: int, offset: int)
    ensures GmTime(s).mon >= 0 && GmTime(u).mon >= 0
    ensures TimeAgtB(GmTime(s), GmTime(u), offset) == if s == u then 0 else if s > u then 1 else -1
  {
    GmThenMk(s, offset);
    GmThenMk(u, offset);
  }

  // ----- The calendar itself -----

  /** The leap years of the Gregorian calendar. */
  lemma GregorianYears(y: int)
    ensures YearStart(y + 1) - YearStart(y) == if y % 4 == 0 && (y % 100 != 0 || y % 400 == 0) then 366 else 365
  {
    NextYear(y);
  }

  /** Its months. */
  lemma GregorianMonths(y: int)
    ensures MonthLength(0, Leap(y)) == 31 && MonthLength(2, Leap(y)) == 31 && MonthLength(3, Leap(y)) == 30
    ensures MonthLength(4, Leap(y)) == 31 && MonthLength(5, Leap(y)) == 30 && MonthLength(6, Leap(y)) == 31
    ensures MonthLength(7, Leap(y)) == 31 && MonthLength(8, Leap(y)) == 30 && MonthLength(9, Leap(y)) == 31
    ensures MonthLength(10, Leap(y)) == 30 && MonthLength(11, Leap(y)) == 31
    ensures MonthLength(1, Leap(y)) == if y % 4 == 0 && (y % 100 != 0 || y % 400 == 0) then 29 else 28
  {
  }

  /** The Epoch, and with it every other day, is where it should be. */
  lemma EpochIsKnown(t: Tm, offset: int)
    requires t.year == 1970 && t.mon == 0 && t.mday == 1
    ensures MkTime(t, offset) == t.hour * 3600 + t.min * 60 + t.sec - offset
  {
    assert MonthStart(t.mon, Leap(t.year)) == 0;
  }
}
