/** Time values as text (gqlvalue.c): what the Time scalar prints and what a string parses back to. */
module TimeText {
  import opened Bytes
  import opened Wrappers
  import opened Calendar
  import Sectime

  const NS: int := 1_000_000_000
  const INT64_MAX: int := 0x7fff_ffff_ffff_ffff

  // ----- printing

  function Pow10(w: nat): nat {
    if w == 0 then 1 else 10 * Pow10(w - 1)
  }

  /** The `w` decimal digits of a number that has no more: %0wd. */
  function Fixed(n: nat, w: nat): (t: Text)
    ensures |t| == w && forall i :: 0 <= i < w ==> 48 <= t[i] <= 57
  {
    if w == 0 then [] else Fixed(n / 10, w - 1) + [(48 + n % 10) as Byte]
  }

  predicate Printable(c: Civil) {
    && 0 <= c.year < 10000 && 0 <= c.mon < 100 && 0 <= c.day < 100
    && 0 <= c.hour < 100 && 0 <= c.min < 100 && 0 <= c.sec < 100
  }

  function FormatTime(c: Civil, nsecs: nat): Text
    requires Printable(c) && nsecs < NS
  {
    Fixed(c.hour, 2) + ([58] + (Fixed(c.min, 2) + ([58] + (Fixed(c.sec, 2) + ([46] + (Fixed(nsecs, 9) + [90]))))))
  }

  /** "%04d-%02d-%02dT%02d:%02d:%02d.%09ldZ" */
  function Format(c: Civil, nsecs: nat): Text
    requires Printable(c) && nsecs < NS
  {
    Fixed(c.year, 4) + ([45] + (Fixed(c.mon, 2) + ([45] + (Fixed(c.day, 2) + ([84] + FormatTime(c, nsecs))))))
  }

  /** Division in C, toward zero. */
  function Trunc(x: int, n: int): int
    requires n > 0
  {
    if x < 0 then -(-x / n) else x / n
  }

  function Abs(x: int): nat {
    if 0 > x then -x else x
  }

  /** The years of a 64-bit nanosecond count have four digits. */
  lemma InRange(tt: int)
    requires -INT64_MAX - 1 <= tt <= INT64_MAX
    ensures var s := Trunc(tt, NS); 1677 <= Sectime.YearOf(s) <= 2262 && Printable(Sectime.Shown(s))
    ensures 0 <= tt - Trunc(tt, NS) * NS < NS || -NS < tt - Trunc(tt, NS) * NS < 0
  {
    var s := Trunc(tt, NS);
    TruncParts(tt);
    hide Trunc, YearStart;
    var d, y := (s + EPOCH) / 86400, Sectime.YearOf(s);
    assert 612773 <= d <= 826279;
    YearRange(d, y);
    PrintableShown(s);
  }

  lemma YearRange(d: int, y: int)
    requires 612773 <= d <= 826279 && YearStart(y) <= d < YearStart(y + 1)
    ensures 1677 <= y <= 2262
  {
    hide YearStart;
    YearStartIs(1677);
    YearStartIs(2263);
    if y < 1677 {
      YearsBetween(y + 1, 1677);
    } else if y > 2262 {
      YearsBetween(2263, y);
    }
  }

  lemma TruncParts(tt: int)
    requires -INT64_MAX - 1 <= tt <= INT64_MAX
    ensures -9223372037 <= Trunc(tt, NS) <= 9223372036
    ensures 0 <= tt - Trunc(tt, NS) * NS < NS || -NS < tt - Trunc(tt, NS) * NS < 0
  {
  }

  lemma YearsBetween(x: int, y: int)
    requires x <= y
    ensures YearStart(x) <= YearStart(y)
  {
    if x < y {
      YearsGrow(x, y);
    }
  }

  lemma PrintableShown(s: int)
    requires 0 <= Sectime.YearOf(s) < 10000
    ensures Printable(Sectime.Shown(s))
  {
    var leap := Sectime.LeapTable(Sectime.YearOf(s));
    Sectime.NotLeap(Sectime.YearOf(s));
    MonthEnds(leap);
    var m := MonthAt(leap, DayOfYear(s), 1);
    assert MonthStart(leap, m + 1) == MonthStart(leap, m) + MonthLength(leap, m);
  }

  /** The text of a time. */
  ghost function Rendered(tt: int): Text
    requires -INT64_MAX - 1 <= tt <= INT64_MAX
  {
    InRange(tt);
    var t := Trunc(tt, NS);
    Format(Sectime.Shown(t), Abs(tt - t * NS))
  }

  method ToText(tt: int) returns (text: Text)
    requires -INT64_MAX - 1 <= tt <= INT64_MAX
    ensures text == Rendered(tt)
  {
    hide Format, Sectime.Shown, Sectime.YearOf;
    var t := Trunc(tt, NS);
    var nsecs := tt - t * NS;
    InRange(tt);
    if 0 > nsecs {
      nsecs := -nsecs;
    }
    var at := new Sectime.Time();
    at.Sectime(t);
    text := Format(at.Fields(), nsecs);
  }

  // ----- parsing

  datatype Parsed = Ok(t: int) | Err

  datatype Num = Num(v: nat, rest: Text)

  /** read_num: exactly `n` digits. */
  function ReadNum(s: Text, n: nat, v: nat): Option<Num> {
    if n == 0 then Some(Num(v, s))
    else if IsDigit(Head(s)) then ReadNum(s[1..], n - 1, v * 10 + (s[0] as nat - 48))
    else None
  }

  /** `n` digits after a mark. */
  function ReadAfter(s: Text, mark: Byte, n: nat): Option<Num> {
    if Head(s) != mark || mark == 0 then None else ReadNum(s[1..], n, 0)
  }

  /** timegm: months out of range carry into the year, days past the end of a month count on. */
  function TimeGm(c: Civil): int {
    Seconds(Civil(c.year + (c.mon - 1) / 12, (c.mon - 1) % 12 + 1, c.day, c.hour, c.min, c.sec))
  }

  /** read_zone up to the end of the text: the offset in minutes, taken off as seconds. */
  function Zoned(c: Civil, sign: Byte, s: Text, nsecs: nat): Parsed {
    match ReadNum(s, 2, 0)
    case None => Err
    case Some(hr) =>
      match ReadAfter(hr.rest, 58, 2)
      case None => Err
      case Some(min) =>
        var v := hr.v * 60 + min.v;
        if min.rest != [] then Err
        else Ok((TimeGm(c) - if sign == 45 then -v else v) * NS + nsecs)
  }

  /** time_parse */
  function ParseTime(str: Text): Parsed {
    var s := CStr(str);
    if |s| < 10 || 36 < |s| then Err
    else
      match ReadNum(if Head(s) == 45 then s[1..] else s, 4, 0)
      case None => Err
      case Some(y) =>
        match ReadAfter(y.rest, 45, 2)
        case None => Err
        case Some(m) =>
          match ReadAfter(m.rest, 45, 2)
          case None => Err
          case Some(d) =>
            var year: int := y.v;
            AfterDate(Civil(if Head(s) == 45 then -year else year, m.v, d.v, 0, 0, 0), d.rest)
  }

  function AfterDate(c: Civil, s: Text): Parsed {
    if s == [] then Ok(TimeGm(c) * NS)
    else if s[0] == 90 then if |s| == 1 then Ok(TimeGm(c) * NS) else Err
    else if s[0] == 45 || s[0] == 43 then Zoned(c, s[0], s[1..], 0)
    else if s[0] == 84 then AfterT(c, s[1..])
    else Err
  }

  /** An hour that is not a number gives the time 0, not an error. */
  function AfterT(c: Civil, s: Text): Parsed {
    if |s| < 9 then Err
    else
      match ReadNum(s, 2, 0)
      case None => Ok(0)
      case Some(h) =>
        match ReadAfter(h.rest, 58, 2)
        case None => Err
        case Some(m) =>
          match ReadAfter(m.rest, 58, 2)
          case None => Err
          case Some(sec) => AfterSeconds(c.(hour := h.v, min := m.v, sec := sec.v), sec.rest)
  }

  function AfterSeconds(c: Civil, s: Text): Parsed {
    if s == [] then Err
    else if s[0] == 90 then if |s| == 1 then Ok(TimeGm(c) * NS) else Err
    else if s[0] == 45 || s[0] == 43 then if |s| < 6 then Err else Zoned(c, s[0], s[1..], 0)
    else if s[0] == 46 then Fraction(c, s[1..], 9, 0)
    else Err
  }

  /** Up to nine digits, then the zone.  Any one last byte will do for the Z. */
  function Fraction(c: Civil, s: Text, i: nat, nsecs: nat): Parsed {
    if i == 0 then AfterFraction(c, s, nsecs)
    else if s == [] then Err
    else if IsDigit(s[0]) then Fraction(c, s[1..], i - 1, nsecs * 10 + (s[0] as nat - 48))
    else AfterFraction(c, s, nsecs * Pow10(i))
  }

  function AfterFraction(c: Civil, s: Text, nsecs: nat): Parsed {
    if s == [] then Err
    else if s[0] == 45 || s[0] == 43 then if |s| < 6 then Err else Zoned(c, s[0], s[1..], nsecs)
    else if |s| == 1 then Ok(Signed(TimeGm(c) * NS, nsecs))
    else Err
  }

  /** The fraction counts away from zero. */
  function Signed(secs: int, nsecs: nat): int {
    if 0 <= secs then secs + nsecs else secs - nsecs
  }

  // ----- reading back

  lemma {:induction false} ReadFixed(n: nat, w: nat, k: nat, rest: Text, v: nat)
    requires n < Pow10(w)
    ensures ReadNum(Fixed(n, w) + rest, w + k, v) == ReadNum(rest, k, v * Pow10(w) + n)
    decreases w
  {
    if w == 0 {
      assert Fixed(n, w) + rest == rest;
    } else {
      var d := (48 + n % 10) as Byte;
      assert Fixed(n, w) + rest == Fixed(n / 10, w - 1) + ([d] + rest);
      ReadFixed(n / 10, w - 1, k + 1, [d] + rest, v);
      assert ([d] + rest)[1..] == rest;
      Shift(v, Pow10(w - 1), n);
    }
  }

  lemma Shift(v: nat, p: nat, n: nat)
    ensures (v * p + n / 10) * 10 + n % 10 == v * (10 * p) + n
  {
  }

  lemma {:induction false} FractionFixed(c: Civil, n: nat, w: nat, k: nat, rest: Text, v: nat)
    requires n < Pow10(w)
    ensures Fraction(c, Fixed(n, w) + rest, w + k, v) == Fraction(c, rest, k, v * Pow10(w) + n)
    decreases w
  {
    if w == 0 {
      assert Fixed(n, w) + rest == rest;
    } else {
      var d := (48 + n % 10) as Byte;
      assert Fixed(n, w) + rest == Fixed(n / 10, w - 1) + ([d] + rest);
      FractionFixed(c, n / 10, w - 1, k + 1, [d] + rest, v);
      assert ([d] + rest)[1..] == rest;
      Shift(v, Pow10(w - 1), n);
    }
  }

  lemma ReadTwo(n: nat, rest: Text)
    requires n < 100
    ensures ReadNum(Fixed(n, 2) + rest, 2, 0) == Some(Num(n, rest))
  {
    assert Pow10(2) == 100;
    ReadFixed(n, 2, 0, rest, 0);
  }

  lemma MarkTwo(mark: Byte, n: nat, rest: Text)
    requires n < 100 && mark != 0
    ensures ReadAfter([mark] + (Fixed(n, 2) + rest), mark, 2) == Some(Num(n, rest))
  {
    assert ([mark] + (Fixed(n, 2) + rest))[1..] == Fixed(n, 2) + rest;
    ReadTwo(n, rest);
  }

  lemma ParseTimeOfDay(c: Civil, nsecs: nat)
    requires Printable(c) && nsecs < NS
    ensures AfterT(c.(hour := 0, min := 0, sec := 0), FormatTime(c, nsecs)) == Ok(Signed(TimeGm(c) * NS, nsecs))
  {
    hide TimeGm, Signed, ReadNum, ReadAfter, Fraction;
    var frac := Fixed(nsecs, 9) + [90];
    var secs := Fixed(c.sec, 2) + ([46] + frac);
    ReadTwo(c.hour, [58] + (Fixed(c.min, 2) + ([58] + secs)));
    MarkTwo(58, c.min, [58] + secs);
    MarkTwo(58, c.sec, [46] + frac);
    ParseFraction(c, nsecs);
    assert ([46] + frac)[1..] == frac;
  }

  lemma ParseFraction(c: Civil, nsecs: nat)
    requires nsecs < NS
    ensures Fraction(c, Fixed(nsecs, 9) + [90], 9, 0) == Ok(Signed(TimeGm(c) * NS, nsecs))
  {
    hide TimeGm, Signed;
    assert Pow10(9) == NS by { assert Pow10(3) == 1000; assert Pow10(6) == 1000 * Pow10(3); }
    FractionFixed(c, nsecs, 9, 0, [90], 0);
  }

  lemma {:induction false} CleanFormat(c: Civil, nsecs: nat)
    requires Printable(c) && nsecs < NS
    ensures NulFree(Format(c, nsecs)) && |Format(c, nsecs)| == 30
  {
  }

  /** A formatted date parses as timegm reads its fields. */
  lemma ParseFormat(c: Civil, nsecs: nat)
    requires Printable(c) && nsecs < NS
    ensures ParseTime(Format(c, nsecs)) == Ok(Signed(TimeGm(c) * NS, nsecs))
  {
    hide TimeGm, Signed, ReadNum, ReadAfter, AfterT, FormatTime;
    CleanFormat(c, nsecs);
    var tail := [84] + FormatTime(c, nsecs);
    var days := Fixed(c.day, 2) + tail;
    assert Pow10(4) == 10000;
    ReadYear(c.year, [45] + (Fixed(c.mon, 2) + ([45] + days)));
    MarkTwo(45, c.mon, [45] + days);
    MarkTwo(45, c.day, tail);
    assert tail[1..] == FormatTime(c, nsecs);
    ParseTimeOfDay(c, nsecs);
  }

  lemma ReadYear(y: nat, rest: Text)
    requires y < 10000
    ensures ReadNum(Fixed(y, 4) + rest, 4, 0) == Some(Num(y, rest))
  {
    assert Pow10(4) == 10000;
    ReadFixed(y, 4, 0, rest, 0);
  }

  lemma ParseRendered(tt: int)
    requires -INT64_MAX - 1 <= tt <= INT64_MAX
    ensures var t := Trunc(tt, NS);
            ParseTime(Rendered(tt)) == Ok(Signed(Seconds(Sectime.Shown(t)) * NS, Abs(tt - t * NS)))
  {
    hide ParseTime, Format, TimeGm, Signed, Sectime.Shown, Seconds;
    InRange(tt);
    var t := Trunc(tt, NS);
    ParseFormat(Sectime.Shown(t), Abs(tt - t * NS));
    ShownMonth(t);
    TimeGmIs(Sectime.Shown(t));
  }

  lemma ShownMonth(t: int)
    ensures 1 <= Sectime.Shown(t).mon <= 12
  {
  }

  /** The round trip: a time comes back from its text exactly when it is not within the second before the epoch and not
      on 2 March or later in 2001 to 2003. */
  lemma RoundTrip(tt: int)
    requires -INT64_MAX - 1 <= tt <= INT64_MAX
    ensures ParseTime(Rendered(tt)) == Ok(tt)
       <==> !(-NS < tt < 0)
            && !(2001 <= Sectime.YearOf(Trunc(tt, NS)) <= 2003 && DayOfYear(Trunc(tt, NS)) >= 60)
  {
    hide ParseTime, Rendered, Sectime.Shown, Seconds, Sectime.YearOf;
    InRange(tt);
    var t := Trunc(tt, NS);
    ParseRendered(tt);
    Sectime.ShownExact(t);
    Late(Sectime.YearOf(t));
    if 2001 <= Sectime.YearOf(t) {
      ThisMillennium(t);
    }
  }

  lemma ThisMillennium(t: int)
    requires 2001 <= Sectime.YearOf(t)
    ensures t >= 86400
  {
    YearStartIs(2001);
    YearsBetween(2001, Sectime.YearOf(t));
  }

  lemma TimeGmIs(c: Civil)
    requires 1 <= c.mon <= 12
    ensures TimeGm(c) == Seconds(c)
  {
    assert (c.mon - 1) / 12 == 0 && (c.mon - 1) % 12 == c.mon - 1;
  }

  lemma Late(y: int)
    requires 1677 <= y <= 2262
    ensures 1 <= y % 400 <= 3 <==> 2001 <= y <= 2003
  {
  }

  // ----- the parser step by step

  /** read_num: the digits are added up while the cursor moves. */
  method ReadDigits(from: Text, len: nat) returns (r: Option<Num>)
    ensures r == ReadNum(from, len, 0)
  {
    var s := from;
    var n, v: nat := len, 0;
    while 0 < n
      invariant ReadNum(s, n, v) == ReadNum(from, len, 0)
    {
      if !IsDigit(Head(s)) {
        return None;
      }
      v := v * 10 + (s[0] as nat - 48);
      n, s := n - 1, s[1..];
    }
    return Some(Num(v, s));
  }

  method ReadMarked(s: Text, mark: Byte, len: nat) returns (r: Option<Num>)
    requires mark != 0
    ensures r == ReadAfter(s, mark, len)
  {
    if Head(s) != mark {
      return None;
    }
    r := ReadDigits(s[1..], len);
  }

  method ReadZone(c: Civil, sign: Byte, s: Text, nsecs: nat) returns (r: Parsed)
    ensures r == Zoned(c, sign, s, nsecs)
  {
    var hr := ReadDigits(s, 2);
    if hr.None? {
      return Err;
    }
    var min := ReadMarked(hr.value.rest, 58, 2);
    if min.None? {
      return Err;
    }
    var v: int := hr.value.v * 60 + min.value.v;
    if sign == 45 {
      v := -v;
    }
    if min.value.rest != [] {
      return Err;
    }
    return Ok((TimeGm(c) - v) * NS + nsecs);
  }

  /** time_parse: the date, and what follows it. */
  method TimeParse(str: Text) returns (r: Parsed)
    ensures r == ParseTime(str)
  {
    hide TimeGm, ReadNum, ReadAfter, Zoned, AfterT;
    var s := CStr(str);
    if |s| < 10 || 36 < |s| {
      return Err;
    }
    var neg := s[0] == 45;
    if neg {
      s := s[1..];
    }
    var y := ReadDigits(s, 4);
    if y.None? {
      return Err;
    }
    var year: int := y.value.v;
    if neg {
      year := -year;
    }
    var mon := ReadMarked(y.value.rest, 45, 2);
    if mon.None? {
      return Err;
    }
    var day := ReadMarked(mon.value.rest, 45, 2);
    if day.None? {
      return Err;
    }
    s := day.value.rest;
    var c := Civil(year, mon.value.v, day.value.v, 0, 0, 0);
    if s == [] {
      return Ok(TimeGm(c) * NS);
    }
    if s[0] == 90 {
      return if |s| == 1 then Ok(TimeGm(c) * NS) else Err;
    }
    if s[0] == 45 || s[0] == 43 {
      r := ReadZone(c, s[0], s[1..], 0);
    } else if s[0] == 84 {
      r := ParseClock(c, s[1..]);
    } else {
      r := Err;
    }
  }

  /** From the T on. */
  method ParseClock(date: Civil, from: Text) returns (r: Parsed)
    ensures r == AfterT(date, from)
  {
    hide TimeGm, ReadNum, ReadAfter, Zoned, Fraction;
    if |from| < 9 {
      return Err;
    }
    var hour := ReadDigits(from, 2);
    if hour.None? {
      return Ok(0);
    }
    var min := ReadMarked(hour.value.rest, 58, 2);
    if min.None? {
      return Err;
    }
    var sec := ReadMarked(min.value.rest, 58, 2);
    if sec.None? {
      return Err;
    }
    var s := sec.value.rest;
    var c := date.(hour := hour.value.v, min := min.value.v, sec := sec.value.v);
    if s == [] {
      return Err;
    }
    if s[0] == 90 {
      return if |s| == 1 then Ok(TimeGm(c) * NS) else Err;
    }
    if s[0] == 45 || s[0] == 43 {
      if |s| < 6 {
        return Err;
      }
      r := ReadZone(c, s[0], s[1..], 0);
    } else if s[0] == 46 {
      r := ParseNanos(c, s[1..]);
    } else {
      r := Err;
    }
  }

  /** The loops over the fraction, and the end of the text. */
  method ParseNanos(c: Civil, from: Text) returns (r: Parsed)
    ensures r == Fraction(c, from, 9, 0)
  {
    hide TimeGm, Zoned;
    var s := from;
    var i: nat, nsecs: nat := 9, 0;
    while 0 < i
      invariant Fraction(c, s, i, nsecs) == Fraction(c, from, 9, 0)
    {
      if s == [] {
        return Err;
      }
      if !IsDigit(s[0]) {
        break;
      }
      nsecs := nsecs * 10 + (s[0] as nat - 48);
      i, s := i - 1, s[1..];
    }
    nsecs := Scaled(nsecs, i);
    assert AfterFraction(c, s, nsecs) == Fraction(c, from, 9, 0);
    if s == [] {
      return Err;
    }
    if s[0] == 45 || s[0] == 43 {
      if |s| < 6 {
        return Err;
      }
      r := ReadZone(c, s[0], s[1..], nsecs);
    } else if |s| == 1 {
      var secs := TimeGm(c) * NS;
      r := Ok(if 0 <= secs then secs + nsecs else secs - nsecs);
    } else {
      r := Err;
    }
  }

  /** The digits that were not given count as zeros. */
  method Scaled(nsecs: nat, missing: nat) returns (scaled: nat)
    ensures scaled == nsecs * Pow10(missing)
  {
    scaled := nsecs;
    var i := missing;
    while 0 < i
      invariant 0 <= i && scaled * Pow10(i) == nsecs * Pow10(missing)
    {
      Shifted(scaled, Pow10(i - 1));
      scaled, i := scaled * 10, i - 1;
    }
  }

  lemma Shifted(n: nat, p: nat)
    ensures n * (10 * p) == n * 10 * p
  {
  }
}
