/** The proleptic Gregorian calendar: years, months and days counted from 1 January of the year 0. */
module Calendar {
  predicate IsLeap(y: int) {
    y % 4 == 0 && (y % 100 != 0 || y % 400 == 0)
  }

  function YearLength(y: int): nat {
    if IsLeap(y) then 366 else 365
  }

  /** The days before a year begins. */
  function YearStart(y: int): int
    decreases if y < 0 then -y else y
  {
    if y == 0 then 0
    else if y > 0 then YearStart(y - 1) + YearLength(y - 1)
    else YearStart(y + 1) - YearLength(y)
  }

  function MonthLength(leap: bool, m: int): nat
    requires 1 <= m <= 12
  {
    if m == 2 then (if leap then 29 else 28)
    else if m == 4 || m == 6 || m == 9 || m == 11 then 30
    else 31
  }

  /** The days of a year before a month begins; month 13 begins the next year. */
  function MonthStart(leap: bool, m: int): nat
    requires 1 <= m <= 13
  {
    if m == 1 then 0 else MonthStart(leap, m - 1) + MonthLength(leap, m - 1)
  }

  datatype Civil = Civil(year: int, mon: int, day: int, hour: int, min: int, sec: int)

  predicate Valid(t: Civil) {
    && 1 <= t.mon <= 12 && 1 <= t.day <= MonthLength(IsLeap(t.year), t.mon)
    && 0 <= t.hour < 24 && 0 <= t.min < 60 && 0 <= t.sec < 60
  }

  /** The seconds from the start of the year 0 to that of 1970. */
  const EPOCH: int := 62167219200

  function SecondOfDay(t: Civil): int {
    t.hour * 3600 + t.min * 60 + t.sec
  }

  /** Seconds since the epoch.  Days past the end of a month count on into the next. */
  function Seconds(t: Civil): int
    requires 1 <= t.mon <= 12
  {
    (YearStart(t.year) + MonthStart(IsLeap(t.year), t.mon) + t.day - 1) * 86400 + SecondOfDay(t) - EPOCH
  }

  // ----- years

  /** Leap years before the year, counted from the year 0. */
  function Leaps(y: int): int {
    (y + 3) / 4 - (y + 99) / 100 + (y + 399) / 400
  }

  lemma {:induction false} YearStartIs(y: int)
    ensures YearStart(y) == 365 * y + Leaps(y)
    decreases if y < 0 then -y else y
  {
    if y > 0 {
      YearStartIs(y - 1);
      LeapsNext(y - 1);
    } else if y < 0 {
      YearStartIs(y + 1);
      LeapsNext(y);
    }
  }

  lemma LeapsNext(y: int)
    ensures Leaps(y + 1) == Leaps(y) + if IsLeap(y) then 1 else 0
  {
    Next4(y);
    Next100(y);
    Next400(y);
    Centuries(y);
  }

  lemma Centuries(y: int)
    ensures y % 100 == 0 ==> y % 4 == 0
    ensures y % 400 == 0 ==> y % 100 == 0
  {
    if y % 100 == 0 {
      Hundreds(y / 100);
    }
    if y % 400 == 0 {
      FourHundreds(y / 400);
    }
  }

  lemma Hundreds(c: int)
    ensures 100 * c % 4 == 0
  {
    assert 100 * c == 4 * (25 * c);
  }

  lemma FourHundreds(q: int)
    ensures 400 * q % 100 == 0
  {
    assert 400 * q == 100 * (4 * q);
  }

  lemma Next4(x: int)
    ensures (x + 4) / 4 == (x + 3) / 4 + if x % 4 == 0 then 1 else 0
  {
  }

  lemma Next100(x: int)
    ensures (x + 100) / 100 == (x + 99) / 100 + if x % 100 == 0 then 1 else 0
  {
  }

  lemma Next400(x: int)
    ensures (x + 400) / 400 == (x + 399) / 400 + if x % 400 == 0 then 1 else 0
  {
  }

  lemma Period(y: int, k: int)
    ensures YearStart(y + 400 * k) == YearStart(y) + 146097 * k
    ensures IsLeap(y + 400 * k) == IsLeap(y)
  {
    YearStartIs(y);
    YearStartIs(y + 400 * k);
    By4(y + 3, k);
    By100(y + 99, k);
    By400(y + 399, k);
    By4(y, k);
    By100(y, k);
    By400(y, k);
  }

  lemma By4(x: int, k: int)
    ensures (x + 400 * k) / 4 == x / 4 + 100 * k && (x + 400 * k) % 4 == x % 4
  {
  }

  lemma By100(x: int, k: int)
    ensures (x + 400 * k) / 100 == x / 100 + 4 * k && (x + 400 * k) % 100 == x % 100
  {
  }

  lemma By400(x: int, k: int)
    ensures (x + 400 * k) / 400 == x / 400 + k && (x + 400 * k) % 400 == x % 400
  {
  }

  lemma {:induction false} YearsGrow(x: int, y: int)
    requires x < y
    ensures YearStart(x + 1) <= YearStart(y)
    ensures YearStart(x + 1) == YearStart(x) + YearLength(x)
    decreases y - x
  {
    if x + 1 < y {
      YearsGrow(x + 1, y);
    }
  }

  /** At most one year holds a day. */
  lemma OneYear(x: int, y: int, d: int)
    requires YearStart(x) <= d < YearStart(x + 1) && YearStart(y) <= d < YearStart(y + 1)
    ensures x == y
  {
    if x < y {
      YearsGrow(x, y);
    } else if y < x {
      YearsGrow(y, x);
    }
  }

  /** The year that holds a day. */
  ghost function YearAt(d: int): (y: int)
    ensures YearStart(y) <= d < YearStart(y + 1)
    decreases if d < 0 then -d else 0
  {
    if d < 0 then Period(YearAt(d + 146097) - 400, 1); Period(YearAt(d + 146097) - 399, 1); YearAt(d + 146097) - 400
    else YearUp(d, 0)
  }

  ghost function YearUp(d: int, y: nat): (r: int)
    requires YearStart(y) <= d
    ensures YearStart(r) <= d < YearStart(r + 1)
    decreases d - YearStart(y)
  {
    if d < YearStart(y + 1) then y else YearUp(d, y + 1)
  }

  // ----- months

  lemma MonthEnds(leap: bool)
    ensures MonthStart(leap, 2) == 31 && MonthStart(leap, 13) == if leap then 366 else 365
    ensures MonthStart(leap, 3) == if leap then 60 else 59
  {
    assert MonthStart(leap, 3) == MonthStart(leap, 2) + MonthLength(leap, 2);
    assert MonthStart(leap, 5) == MonthStart(leap, 3) + 61;
    assert MonthStart(leap, 7) == MonthStart(leap, 5) + 61;
    assert MonthStart(leap, 9) == MonthStart(leap, 7) + 62;
    assert MonthStart(leap, 11) == MonthStart(leap, 9) + 61;
    assert MonthStart(leap, 13) == MonthStart(leap, 11) + 61;
  }

  lemma {:induction false} MonthsGrow(leap: bool, m: int, n: int)
    requires 1 <= m < n <= 13
    ensures MonthStart(leap, m + 1) <= MonthStart(leap, n)
    decreases n
  {
    if m + 1 < n {
      MonthsGrow(leap, m, n - 1);
    }
  }

  /** The month that holds a day of a year. */
  function MonthAt(leap: bool, d: int, m: int): (r: int)
    requires 1 <= m <= 12 && MonthStart(leap, m) <= d < MonthStart(leap, 13)
    ensures m <= r <= 12 && MonthStart(leap, r) <= d < MonthStart(leap, r + 1)
    decreases 12 - m
  {
    if d < MonthStart(leap, m + 1) then m else MonthAt(leap, d, m + 1)
  }

  lemma OneMonth(leap: bool, m: int, n: int, d: int)
    requires 1 <= m <= 12 && 1 <= n <= 12
    requires MonthStart(leap, m) <= d < MonthStart(leap, m + 1) && MonthStart(leap, n) <= d < MonthStart(leap, n + 1)
    ensures m == n
  {
    if m < n {
      MonthsGrow(leap, m, n);
    } else if n < m {
      MonthsGrow(leap, n, m);
    }
  }

  // ----- dates

  /** The day of its year, from 0. */
  ghost function DayOfYear(secs: int): (d: int)
    ensures 0 <= d < YearLength(YearAt((secs + EPOCH) / 86400))
  {
    var day := (secs + EPOCH) / 86400;
    YearsGrow(YearAt(day), YearAt(day) + 1);
    day - YearStart(YearAt(day))
  }

  /** A date whose months are taken from a leap or an ordinary year. */
  ghost function DateBy(leap: bool, secs: int): Civil
    requires DayOfYear(secs) < if leap then 366 else 365
  {
    var d := DayOfYear(secs);
    var r := (secs + EPOCH) % 86400;
    MonthEnds(leap);
    var m := MonthAt(leap, d, 1);
    Civil(YearAt((secs + EPOCH) / 86400), m, d - MonthStart(leap, m) + 1, r / 3600, r % 3600 / 60, r % 60)
  }

  /** The calendar date of a second. */
  ghost function DateOf(secs: int): (t: Civil)
    ensures Valid(t) && Seconds(t) == secs
  {
    DateBy(IsLeap(YearAt((secs + EPOCH) / 86400)), secs)
  }

  /** No other valid date has that many seconds. */
  lemma DateIs(t: Civil)
    requires Valid(t)
    ensures DateOf(Seconds(t)) == t
  {
    var u := DateOf(Seconds(t));
    var leap := IsLeap(t.year);
    var d, e := MonthStart(leap, t.mon) + t.day - 1, MonthStart(IsLeap(u.year), u.mon) + u.day - 1;
    InYear(t);
    InYear(u);
    assert YearStart(t.year) + d == YearStart(u.year) + e;
    OneYear(t.year, u.year, YearStart(t.year) + d);
    OneMonth(leap, t.mon, u.mon, d);
  }

  lemma InYear(t: Civil)
    requires Valid(t)
    ensures YearStart(t.year) <= YearStart(t.year) + MonthStart(IsLeap(t.year), t.mon) + t.day - 1
            < YearStart(t.year + 1)
    ensures MonthStart(IsLeap(t.year), t.mon) + t.day - 1 < MonthStart(IsLeap(t.year), t.mon + 1)
    ensures 0 <= SecondOfDay(t) < 86400
  {
    var leap := IsLeap(t.year);
    YearsGrow(t.year, t.year + 1);
    MonthEnds(leap);
    if t.mon < 12 {
      MonthsGrow(leap, t.mon, 13);
    }
  }
}
