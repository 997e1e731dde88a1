/** sectime.c: seconds since the epoch to a date, by cutting whole cycles of years off and searching a month table. */
module Sectime {
  import opened Calendar

  const DAY: int := 86400
  const YEAR: int := 31536000
  const LEAP: int := 31622400
  const QUAD: int := 126230400
  const CENT: int := 3155673600
  const LEAP_CENT: int := 3155760000
  const QUAD_CENT: int := 12622780800

  /** The ends of the months in an ordinary year, in seconds: eom_secs. */
  const EOM_SECS: seq<int> := [
    2678400, 5097600, 7776000, 10368000, 13046400, 15638400,
    18316800, 20995200, 23587200, 26265600, 28857600, 31536000]

  /** The same in a leap year: eom_leap_secs. */
  const EOM_LEAP_SECS: seq<int> := [
    2678400, 5184000, 7862400, 10454400, 13132800, 15724800,
    18403200, 21081600, 23673600, 26352000, 28944000, 31622400]

  lemma Tables(m: int)
    requires 1 <= m <= 12
    ensures EOM_SECS[m - 1] == MonthStart(false, m + 1) * DAY
    ensures EOM_LEAP_SECS[m - 1] == MonthStart(true, m + 1) * DAY
  {
    MonthTable(false);
    MonthTable(true);
  }

  lemma MonthTable(leap: bool)
    ensures var f := if leap then 1 else 0;
            && MonthStart(leap, 2) == 31 && MonthStart(leap, 3) == 59 + f && MonthStart(leap, 4) == 90 + f
            && MonthStart(leap, 5) == 120 + f && MonthStart(leap, 6) == 151 + f && MonthStart(leap, 7) == 181 + f
            && MonthStart(leap, 8) == 212 + f && MonthStart(leap, 9) == 243 + f && MonthStart(leap, 10) == 273 + f
            && MonthStart(leap, 11) == 304 + f && MonthStart(leap, 12) == 334 + f && MonthStart(leap, 13) == 365 + f
  {
    assert MonthStart(leap, 2) == 31;
    assert MonthStart(leap, 4) == MonthStart(leap, 3) + 31;
    assert MonthStart(leap, 6) == MonthStart(leap, 5) + 31;
    assert MonthStart(leap, 8) == MonthStart(leap, 7) + 31;
    assert MonthStart(leap, 10) == MonthStart(leap, 9) + 30;
    assert MonthStart(leap, 12) == MonthStart(leap, 11) + 30;
  }

  // ----- what the code shows

  /** The years for which the leap table is chosen: the leap years, and the three after each multiple of 400. */
  predicate LeapTable(y: int) {
    IsLeap(y) || 1 <= y % 400 <= 3
  }

  ghost function YearOf(secs: int): int {
    YearAt((secs + EPOCH) / 86400)
  }

  ghost function Shown(secs: int): Civil {
    DateBy(LeapTable(YearOf(secs)), secs)
  }

  /** The date is right exactly when the year is not one, two or three past a multiple of 400, or the day comes before
      1 March; otherwise the table is one day behind. */
  lemma ShownExact(secs: int)
    ensures Shown(secs) == DateOf(secs) <==> !(1 <= YearOf(secs) % 400 <= 3 && DayOfYear(secs) >= 59)
    ensures Seconds(Shown(secs)) == secs - if 1 <= YearOf(secs) % 400 <= 3 && DayOfYear(secs) >= 60 then DAY else 0
    ensures Shown(secs).year == DateOf(secs).year && SecondOfDay(Shown(secs)) == SecondOfDay(DateOf(secs))
  {
    var y, d := YearOf(secs), DayOfYear(secs);
    var t := Shown(secs);
    NotLeap(y);
    if LeapTable(y) != IsLeap(y) {
      MonthTable(true);
      MonthTable(false);
      if d < 59 {
        EarlyMonth(d);
      } else {
        LateMonth(d);
      }
    }
  }

  lemma NotLeap(y: int)
    ensures 1 <= y % 400 <= 3 ==> !IsLeap(y)
  {
    var q := y / 400;
    assert y == 4 * (100 * q) + y % 400;
  }

  lemma EarlyMonth(d: int)
    requires 0 <= d < 59
    ensures MonthStart(true, 13) == 366 && MonthStart(false, 13) == 365
    ensures MonthAt(true, d, 1) == MonthAt(false, d, 1)
    ensures MonthStart(true, MonthAt(true, d, 1)) == MonthStart(false, MonthAt(true, d, 1))
  {
    MonthTable(true);
    MonthTable(false);
    OneMonth(true, MonthAt(true, d, 1), if d < 31 then 1 else 2, d);
    OneMonth(false, MonthAt(false, d, 1), if d < 31 then 1 else 2, d);
  }

  /** From day 59 on the two tables disagree on the day, and the one from the leap table, read in an ordinary year, is
      the day before, or still 1 March for 29 February. */
  lemma LateMonth(d: int)
    requires 59 <= d < 365
    ensures MonthStart(true, 13) == 366 && MonthStart(false, 13) == 365
    ensures var m := MonthAt(true, d, 1);
            && MonthStart(false, m) == MonthStart(true, m) - (if d >= 60 then 1 else 0)
            && (m != MonthAt(false, d, 1) || MonthStart(true, m) != MonthStart(false, m))
  {
    MonthTable(true);
    MonthTable(false);
    var m := MonthAt(true, d, 1);
    MonthsApart(m);
    if d >= 60 {
      if m < 3 { MonthsGrow(true, m, 3); }
    } else {
      OneMonth(true, m, 2, d);
      OneMonth(false, MonthAt(false, d, 1), 3, d);
    }
  }

  lemma {:induction false} MonthsApart(m: int)
    requires 1 <= m <= 13
    ensures MonthStart(true, m) == MonthStart(false, m) + if m >= 3 then 1 else 0
    decreases m
  {
    if m > 1 {
      MonthsApart(m - 1);
    }
  }

  // ----- the cycles

  /** The days before the year 100 c + 4 q + y of a 400-year cycle. */
  lemma CycleDays(c: int, q: int, y: int)
    requires 0 <= c < 4 && 0 <= q < 25 && 0 <= y < 4
    ensures var quad := 1461 * q + 365 * y + if y > 0 then 1 else 0;
            YearStart(100 * c + 4 * q + y) == if c == 0 then quad
              else 36524 * c + 1 + (if q == 0 then 365 * y else quad - 1)
    ensures IsLeap(100 * c + 4 * q + y) <==> y == 0 && (q > 0 || c == 0)
  {
    var n := 100 * c + 4 * q + y;
    YearStartIs(n);
    assert (n + 3) / 4 == 25 * c + q + (if y > 0 then 1 else 0);
    assert (n + 99) / 100 == c + (if q > 0 || y > 0 then 1 else 0);
    assert (n + 399) / 400 == (if n > 0 then 1 else 0);
    assert n % 4 == y;
    assert n % 100 == 4 * q + y;
    assert n % 400 == n;
  }

  /** The seconds before that year. */
  function CycleSeconds(c: int, q: int, y: int): int {
    var quad := QUAD * q + YEAR * y + if y > 0 then DAY else 0;
    if c == 0 then quad else CENT * c + DAY + (if q == 0 then YEAR * y else quad - DAY)
  }

  /** A year of the cycle with what is left of the seconds, and the table chosen. */
  datatype Cut = Cut(year: int, rest: int, leap: bool)

  ghost predicate CutRight(n: int, k: Cut) {
    && 0 <= k.year < 400 && n == YearStart(k.year) * DAY + k.rest
    && 0 <= k.rest < YearLength(k.year) * DAY && k.leap == LeapTable(k.year)
  }

  lemma CutIs(n: int, c: int, q: int, y: int, k: Cut)
    requires 0 <= c < 4 && 0 <= q < 25 && 0 <= y < 4 && k.year == c * 100 + q * 4 + y
    requires n == CycleSeconds(c, q, y) + k.rest
    requires 0 <= k.rest < if y == 0 && (q > 0 || c == 0) then LEAP else YEAR
    requires k.leap <==> (y == 0 && (q > 0 || c == 0)) || (c == 0 && q == 0)
    ensures CutRight(n, k)
  {
    CycleDays(c, q, y);
    assert k.year % 400 == k.year;
  }

  lemma CutBounds(n: int, k: Cut)
    requires CutRight(n, k)
    ensures 0 <= k.rest < (if k.leap then 366 else 365) * DAY
  {
  }

  /** The branches on the seconds into a 400-year cycle. */
  method CutYears(n: int) returns (k: Cut)
    requires 0 <= n < QUAD_CENT
    ensures CutRight(n, k)
  {
    hide CutRight;
    var secs := n;
    var c, qy, y := 0, 0, 0;
    if secs < LEAP {
      k := Cut(0, secs, true);
    } else if secs < QUAD {
      y, secs := PastLeap(secs);
      k := Cut(y, secs, true);
    } else if secs < LEAP_CENT {
      qy := secs / QUAD;
      secs := secs - qy * QUAD;
      if secs < LEAP {
        k := Cut(qy * 4, secs, true);
      } else {
        y, secs := PastLeap(secs);
        k := Cut(qy * 4 + y, secs, false);
      }
    } else {
      secs := secs - LEAP_CENT;
      c := secs / CENT;
      secs := secs - c * CENT;
      c := c + 1;
      if secs < YEAR * 4 {
        y := secs / YEAR;
        secs := secs - y * YEAR;
        k := Cut(c * 100 + y, secs, false);
      } else {
        secs := secs - YEAR * 4;
        qy := secs / QUAD;
        secs := secs - qy * QUAD;
        qy := qy + 1;
        if secs < LEAP {
          k := Cut(c * 100 + qy * 4, secs, true);
        } else {
          y, secs := PastLeap(secs);
          k := Cut(c * 100 + qy * 4 + y, secs, false);
        }
      }
    }
    CutIs(n, c, qy, y, k);
  }

  /** The three ordinary years that follow the leap year of four. */
  method PastLeap(secs: int) returns (y: int, rest: int)
    requires LEAP <= secs < QUAD
    ensures 1 <= y <= 3 && rest == secs - LEAP - (y - 1) * YEAR && 0 <= rest < YEAR
  {
    rest := secs - LEAP;
    y := rest / YEAR;
    rest := rest - y * YEAR;
    y := y + 1;
  }

  /** The whole cycles put back: the year, the day and the time of day of a cut. */
  lemma Cycle(t: int, j: int, secs: int, k: Cut)
    requires t + EPOCH == j * QUAD_CENT + secs && CutRight(secs, k)
    ensures YearOf(t) == 400 * j + k.year && LeapTable(YearOf(t)) == k.leap
    ensures DayOfYear(t) == k.rest / DAY && (t + EPOCH) % DAY == k.rest % DAY
  {
    var d := 146097 * j + YearStart(k.year) + k.rest / DAY;
    var r := k.rest % DAY;
    DaysBack(t + EPOCH, j, YearStart(k.year), k.rest);
    hide YearStart, Leaps;
    YearBack(k.year, j, d);
    OneYear(YearOf(t), 400 * j + k.year, d);
  }

  /** A day of the cycle, so many cycles later. */
  lemma YearBack(year: int, j: int, d: int)
    requires YearStart(year) <= d - 146097 * j < YearStart(year) + YearLength(year)
    ensures YearStart(400 * j + year) == 146097 * j + YearStart(year)
    ensures YearStart(400 * j + year) <= d < YearStart(400 * j + year + 1)
    ensures LeapTable(400 * j + year) == LeapTable(year)
  {
    hide YearStart;
    Period(year, j);
    Period(year + 1, j);
    YearsGrow(year, year + 1);
    By400(year, j);
  }

  lemma DaysBack(x: int, j: int, start: int, rest: int)
    requires 0 <= rest && x == j * QUAD_CENT + start * DAY + rest
    ensures x / DAY == 146097 * j + start + rest / DAY && x % DAY == rest % DAY
  {
    var d, r := rest / DAY, rest % DAY;
    assert x == (146097 * j + start + d) * DAY + r;
    DaysAndRest(x, 146097 * j + start + d, r);
  }

  lemma DaysAndRest(x: int, d: int, r: int)
    requires x == d * DAY + r && 0 <= r < DAY
    ensures x / DAY == d && x % DAY == r
  {
  }

  /** The date of a cut, given its month. */
  lemma ShownIs(t: int, j: int, secs: int, k: Cut, mon: int)
    requires t + EPOCH == j * QUAD_CENT + secs && CutRight(secs, k)
    requires MonthStart(k.leap, 13) * DAY > k.rest && mon == MonthAt(k.leap, k.rest / DAY, 1)
    ensures var r := k.rest % DAY;
            Shown(t) == Civil(400 * j + k.year, mon, k.rest / DAY - MonthStart(k.leap, mon) + 1,
                              r / 3600, r % 3600 / 60, r % 60)
  {
    Cycle(t, j, secs, k);
    hide CutRight, YearOf, LeapTable;
  }

  lemma WholeDays(rest: int, secs: int, start: int)
    requires secs == rest - start * DAY && rest >= start * DAY
    ensures rest / DAY == start + secs / DAY && rest % DAY == secs % DAY
  {
  }

  // ----- the conversion

  /** The cast of a 64-bit number to int. */
  function ToInt32(x: int): int {
    (x + 0x8000_0000) % 0x1_0000_0000 - 0x8000_0000
  }

  class Time {
    var sec: int
    var min: int
    var hour: int
    var day: int
    var mon: int
    var year: int

    constructor () {
    }

    function Fields(): Civil
      reads this
    {
      Civil(year, mon, day, hour, min, sec)
    }

    /** agoo_sectime */
    method Sectime(t: int)
      requires -0x8000_0000_0000_0000 <= t && t + EPOCH <= 0x7fff_ffff_ffff_ffff
      modifies this
      ensures Fields() == Shown(t).(year := ToInt32(Shown(t).year))
    {
      hide CutRight, Shown, MonthStart, MonthAt;
      var shift, qc, secs := Normalize(t + EPOCH);
      ghost var n := secs;
      var k := CutYears(secs);
      CutBounds(n, k);
      year := ToInt32((qc - shift) * 400 + k.year);
      secs := Month(k.rest, k.leap);
      ShownIs(t, qc - shift, n, k, mon);
      ghost var start := MonthStart(k.leap, mon);
      assert 0 <= secs && k.rest / DAY == start + secs / DAY && k.rest % DAY == secs % DAY by {
        WholeDays(k.rest, secs, start);
      }
      day := secs / 86400;
      secs := secs - day * 86400;
      day := day + 1;
      TimeOfDay(secs);
    }

    /** Whole cycles of 400 years cut off, from below for a time before the year 0. */
    static method Normalize(n: int) returns (shift: int, qc: int, secs: int)
      ensures n == (qc - shift) * QUAD_CENT + secs && 0 <= secs < QUAD_CENT
    {
      shift := 0;
      secs := n;
      if secs < 0 {
        shift := -secs / QUAD_CENT;
        shift := shift + 1;
        secs := secs + shift * QUAD_CENT;
      }
      qc := secs / QUAD_CENT;
      secs := secs - qc * QUAD_CENT;
    }

    method TimeOfDay(r: int)
      requires 0 <= r < DAY
      modifies this`hour, this`min, this`sec
      ensures hour == r / 3600 && min == r % 3600 / 60 && sec == r % 60
    {
      var secs := r;
      hour := secs / 3600;
      secs := secs - hour * 3600;
      min := secs / 60;
      secs := secs - min * 60;
      sec := secs;
    }

    /** The search for the month; what is left are the seconds into it. */
    method Month(secs: int, leap: bool) returns (rest: int)
      requires 0 <= secs < (if leap then 366 else 365) * DAY
      modifies this`mon
      ensures MonthStart(leap, 13) * DAY > secs && mon == MonthAt(leap, secs / DAY, 1)
      ensures 0 <= rest == secs - MonthStart(leap, mon) * DAY
    {
      MonthTable(leap);
      var ms := if leap then EOM_LEAP_SECS else EOM_SECS;
      rest := secs;
      for m := 1 to 13
        invariant rest == secs && MonthStart(leap, m) * DAY <= secs
      {
        Tables(m);
        if secs < ms[m - 1] {
          if 1 < m {
            Tables(m - 1);
            rest := rest - ms[m - 2];
          }
          mon := m;
          OneMonth(leap, m, MonthAt(leap, secs / DAY, 1), secs / DAY);
          return;
        }
      }
      assert false;
    }
  }
}
