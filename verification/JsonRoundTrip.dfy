/** Parsing what was printed gives the value back (gqljson.c after gqlvalue.c), and exactly when. */
module JsonRoundTrip {
  import opened Bytes
  import opened TextBuffer
  import opened Json
  import opened Parsing
  import opened JsonParse

  // ----- what comes back

  /** Integers come back as Int or I64 by magnitude alone. */
  function Normal(v: Value): Value {
    match v
    case Int(i) => IntValue(Abs(i), i < 0)
    case I64(i) => IntValue(Abs(i), i < 0)
    case List(items) => List(seq(|items|, k requires 0 <= k < |items| => Normal(items[k])))
    case Object(members) =>
      Object(seq(|members|, k requires 0 <= k < |members| => Member(members[k].key, Normal(members[k].value))))
    case _ => v
  }

  function Abs(i: int): nat { if i < 0 then -i else i }

  /** No integer is the least 64-bit one and no string is empty. */
  ghost predicate Exact(v: Value) {
    match v
    case I64(i) => i != -INT64_MAX - 1
    case Str(s) => s != []
    case List(items) => forall k :: 0 <= k < |items| ==> Exact(items[k])
    case Object(members) => forall k :: 0 <= k < |members| ==> Exact(members[k].value)
    case _ => true
  }

  /** A key that the parser reads back: short enough, and with no quote in it. */
  predicate KeyFits(key: Text) { |key| < 256 && 34 !in key }

  ghost predicate KeysFit(v: Value) {
    match v
    case List(items) => forall k :: 0 <= k < |items| ==> KeysFit(items[k])
    case Object(members) => forall k :: 0 <= k < |members| ==> KeyFits(members[k].key) && KeysFit(members[k].value)
    case _ => true
  }

  /** The text after a value does not go on with a number. */
  predicate Follows(rest: Text) {
    !IsDigit(Head(rest)) && Head(rest) != 46 && Head(rest) != 101 && Head(rest) != 69
  }

  // ----- white space

  ghost predicate White(pad: Text) { forall b :: b in pad ==> IsWhite(b) }

  lemma {:induction false} SkipPad(pad: Text, t: Text)
    requires White(pad)
    ensures SkipWhite(pad + t) == SkipWhite(t)
    decreases |pad|
  {
    if pad == [] {
      assert pad + t == t;
    } else {
      assert (pad + t)[1..] == pad[1..] + t;
      SkipPad(pad[1..], t);
    }
  }

  lemma PadsWhite(indent: int, depth: nat)
    requires PadsFit(indent, depth)
    ensures White(OpenPad(indent, depth)) && White(ClosePad(indent, depth))
  {
  }

  // ----- numbers

  lemma ReadStep(d: nat, tail: Text, i: nat)
    requires d < 10
    ensures ReadDigits([Digit(d)] + tail, i, false)
         == if i * 10 + d <= INT64_MAX then ReadDigits(tail, i * 10 + d, false) else ReadDigits(tail, i, true)
  {
    assert ([Digit(d)] + tail)[1..] == tail;
  }

  lemma {:induction false} ReadDecimal(n: nat, rest: Text)
    requires n <= INT64_MAX
    ensures ReadDigits(Digits(n) + rest, 0, false) == ReadDigits(rest, n, false)
    decreases n
  {
    if n < 10 {
      ReadStep(n, rest, 0);
    } else {
      ReadDecimal(n / 10, [Digit(n % 10)] + rest);
      ReadStep(n % 10, rest, n / 10);
      assert Digits(n) + rest == Digits(n / 10) + ([Digit(n % 10)] + rest);
    }
  }

  lemma DigitsLast(q: nat, d: nat)
    requires 0 < q && d < 10
    ensures Digits(q * 10 + d) == Digits(q) + [Digit(d)]
  {
    assert (q * 10 + d) / 10 == q && (q * 10 + d) % 10 == d;
  }

  lemma ReadEnd(rest: Text, i: nat, big: bool)
    requires !IsDigit(Head(rest))
    ensures ReadDigits(rest, i, big) == Digited(i, big, rest)
  {
  }

  /** The digit that passes 2^63 - 1 does not fit. */
  lemma ReadTooBig(q: nat, d: nat, rest: Text)
    requires 0 < q <= INT64_MAX < q * 10 + d && d < 10 && !IsDigit(Head(rest))
    ensures ReadDigits(Digits(q * 10 + d) + rest, 0, false) == Digited(q, true, rest)
  {
    hide Digits, ReadDigits;
    DigitsLast(q, d);
    ReadDecimal(q, [Digit(d)] + rest);
    ReadStep(d, rest, q);
    ReadEnd(rest, q, true);
    Assoc(Digits(q), [Digit(d)], rest);
  }

  lemma ParseNatural(n: nat, rest: Text)
    requires n <= INT64_MAX && Follows(rest)
    ensures ParseNum(Digits(n) + rest) == Ok(IntValue(n, false), rest)
  {
    ReadDecimal(n, rest);
    assert (Digits(n) + rest)[0] == Digits(n)[0] && Digits(n)[0] in Digits(n);
  }

  lemma ParseNegative(n: nat, rest: Text)
    requires n <= INT64_MAX && Follows(rest)
    ensures ParseNum([45] + Digits(n) + rest) == Ok(IntValue(n, true), rest)
  {
    assert ([45] + Digits(n) + rest)[1..] == Digits(n) + rest;
    ReadDecimal(n, rest);
  }

  lemma ParseDecimal(i: int, rest: Text)
    requires -INT64_MAX <= i <= INT64_MAX && Follows(rest)
    ensures ParseNum(Decimal(i) + rest) == Ok(IntValue(Abs(i), i < 0), rest)
  {
    if i < 0 {
      ParseNegative(-i, rest);
    } else {
      ParseNatural(i, rest);
    }
  }

  /** The least 64-bit integer comes back as a string. */
  lemma ParseLeast(rest: Text)
    requires Follows(rest)
    ensures ParseNum(Decimal(-INT64_MAX - 1) + rest) == Ok(Str(CStr(Decimal(-INT64_MAX - 1))), rest)
  {
    hide Digits, ReadDigits;
    var t := Decimal(-INT64_MAX - 1);
    var s := t + rest;
    assert s[1..] == Digits(INT64_MAX + 1) + rest;
    ReadTooBig(INT64_MAX / 10, 8, rest);
    assert s[..|t|] == t;
  }

  // ----- strings

  lemma {:induction false} QuoteAfter(t: Text, rest: Text)
    requires 34 !in t
    ensures ToQuote(t + ([34] + rest)) == |t|
    decreases |t|
  {
    var s := t + ([34] + rest);
    if t != [] {
      assert s[1..] == t[1..] + ([34] + rest);
      QuoteAfter(t[1..], rest);
    }
  }

  lemma EscapeFront(b: Byte, s: Text)
    ensures Escape([b] + s) == EscapeByte(b) + Escape(s)
  {
    EscapeConcat([b], s);
    SingleEscape(b);
  }

  lemma SingleEscape(b: Byte)
    ensures Escape([b]) == EscapeByte(b)
  {
    assert [b][..|[b]| - 1] == [];
    assert Escape([b]) == Escape([]) + EscapeByte(b) == EscapeByte(b);
  }

  lemma QuoteNext(b: Byte, t: Text)
    requires b != 34
    ensures ToQuote([b] + t) == 1 + ToQuote(t) && ([b] + t)[..ToQuote([b] + t)] == [b] + t[..ToQuote(t)]
  {
    assert ([b] + t)[1..] == t;
  }

  /** A string that needs an escape shows a backslash before its first quote. */
  lemma {:induction false} BackslashFirst(s: Text, tail: Text)
    requires exists b :: b in s && Width(b) != 1
    ensures 92 in (Escape(s) + tail)[..ToQuote(Escape(s) + tail)]
    decreases |s|
  {
    var b, more := s[0], Escape(s[1..]) + tail;
    assert Escape(s) + tail == EscapeByte(b) + more by {
      assert s == [b] + s[1..];
      EscapeFront(b, s[1..]);
      Assoc(EscapeByte(b), Escape(s[1..]), tail);
    }
    if Width(b) != 1 {
      EscapeByteFirst(b, more);
    } else {
      BackslashFirst(s[1..], tail);
      QuoteNext(b, more);
    }
  }

  lemma EscapeByteFirst(b: Byte, more: Text)
    requires Width(b) != 1
    ensures 92 in (EscapeByte(b) + more)[..ToQuote(EscapeByte(b) + more)]
  {
    var t := EscapeByte(b) + more;
    assert t[0] == 92;
    assert t[..ToQuote(t)][0] == 92;
  }

  lemma {:induction false} UnescapeByte(b: Byte, tail: Text, t: Text)
    requires b != 0
    ensures ParseEscaped(EscapeByte(b) + tail, t) == ParseEscaped(tail, t + [b])
  {
    var s := EscapeByte(b) + tail;
    if Width(b) == 1 {
      assert s[1..] == tail;
    } else if Width(b) == 2 {
      assert s[2..] == tail && s[1..][0] == Letter(b) && Unletter(Letter(b)) == b;
    } else {
      var u := s[2..];
      var n := b as nat;
      assert s[1..][0] == 117 && u[0] == 48 && u[1] == 48 && u[2] == HexChar(n / 16) && u[3] == HexChar(n % 16);
      assert HexVal(u[2]) == n / 16 && HexVal(u[3]) == n % 16;
      assert ReadHex(u).value == n && u[4..] == tail;
    }
  }

  lemma NulFreeTail(s: Text)
    requires NulFree(s) && s != []
    ensures s[0] != 0 && NulFree(s[1..])
  {
    assert s[0] in s && forall x :: x in s[1..] ==> x in s;
  }

  lemma {:induction false} Unescape(s: Text, end: Text, t: Text)
    requires NulFree(s)
    ensures ParseEscaped(Escape(s) + end, t) == ParseEscaped(end, t + s)
    decreases |s|
  {
    if s == [] {
      assert t + s == t && Escape(s) + end == end;
    } else {
      var b, s' := s[0], s[1..];
      NulFreeTail(s);
      assert Escape(s) == EscapeByte(b) + Escape(s') by {
        EscapeFront(b, s');
        assert s == [b] + s';
      }
      Assoc(EscapeByte(b), Escape(s'), end);
      assert t + s == t + [b] + s' by {
        assert s == [b] + s';
      }
      calc {
        ParseEscaped(Escape(s) + end, t);
        ParseEscaped(EscapeByte(b) + (Escape(s') + end), t);
      == { UnescapeByte(b, Escape(s') + end, t); }
        ParseEscaped(Escape(s') + end, t + [b]);
      == { Unescape(s', end, t + [b]); }
        ParseEscaped(end, t + s);
      }
    }
  }

  lemma EscapedBack(s: Text, rest: Text)
    requires NulFree(s) && exists b :: b in s && Width(b) != 1
    ensures ParseString(Escape(s) + ([34] + rest)) == Ok(Str(s), rest)
  {
    BackslashFirst(s, [34] + rest);
    Unescape(s, [34] + rest, []);
    assert [] + s == s && ([34] + rest)[1..] == rest;
  }

  lemma PlainBack(s: Text, rest: Text)
    requires NulFree(s) && s != [] && 34 !in s && 92 !in s
    ensures ParseString(s + ([34] + rest)) == Ok(Str(s), rest)
  {
    var u := s + ([34] + rest);
    QuoteAfter(s, rest);
    assert u[..|s|] == s && u[|s| + 1..] == rest;
  }

  /** Every non-empty C string comes back from its escaped form. */
  lemma StringBack(s: Text, rest: Text)
    requires NulFree(s) && s != []
    ensures ParseString(Escape(s) + ([34] + rest)) == Ok(Str(s), rest)
  {
    if exists b :: b in s && Width(b) != 1 {
      EscapedBack(s, rest);
    } else {
      PlainSize(s);
      assert Width(34) != 1 && Width(92) != 1;
      PlainBack(s, rest);
    }
  }

  /** The empty one comes back as whatever follows it, quote included. */
  lemma EmptyStringBack(rest: Text)
    ensures ParseString([34] + rest) == Ok(Str(CStr([34] + rest)), rest)
    ensures CStr([34] + rest) != []
  {
    var u: Text := [34] + rest;
    assert ToQuote(u) == 0 && u[..0] == [] && u[1..] == rest;
  }

  // ----- values

  lemma DecimalHead(i: int)
    ensures Decimal(i) != [] && (Decimal(i)[0] == 45 || IsDigit(Decimal(i)[0]))
  {
    assert Digits(Abs(i))[0] in Digits(Abs(i));
  }

  lemma PrintHead(v: Value, indent: int, depth: nat)
    requires Fits(v, indent, depth)
    ensures var t := Print(v, indent, depth); t != [] && !IsWhite(t[0]) && t[0] != 93 && t[0] != 125
  {
    if v.Int? || v.I64? {
      DecimalHead(v.i);
    }
  }

  lemma SkipNone(s: Text)
    requires !IsWhite(Head(s))
    ensures SkipWhite(s) == s
  {
  }

  /** A null or a boolean comes back. */
  lemma ParseWord(v: Value, rest: Text)
    requires v.Null? || v.Bool?
    ensures ParseValue(Print(v, 0, 0) + rest) == Ok(v, rest)
  {
    var s := Print(v, 0, 0) + rest;
    SkipNone(s);
    match v {
      case Null =>
        assert s[0] == 110 && NULL_TEXT <= s && s[4..] == rest;
      case Bool(b) =>
        if b {
          assert s[0] == 116 && TRUE_TEXT <= s && s[4..] == rest;
        } else {
          assert s[0] == 102 && FALSE_TEXT <= s && s[5..] == rest;
        }
    }
  }

  lemma ParseInteger(i: int, rest: Text) returns (v': Value)
    requires -INT64_MAX - 1 <= i <= INT64_MAX && Follows(rest)
    ensures ParseValue(Decimal(i) + rest) == Ok(v', rest)
    ensures v' == IntValue(Abs(i), i < 0) <==> i != -INT64_MAX - 1
  {
    var s := Decimal(i) + rest;
    DecimalHead(i);
    SkipNone(s);
    if i == -INT64_MAX - 1 {
      ParseLeast(rest);
      v' := Str(CStr(Decimal(i)));
    } else {
      ParseDecimal(i, rest);
      v' := IntValue(Abs(i), i < 0);
    }
  }

  lemma ParseText(x: Text, rest: Text) returns (v': Value)
    requires NulFree(x)
    ensures ParseValue([34] + Escape(x) + [34] + rest) == Ok(v', rest)
    ensures v' == Str(x) <==> x != []
  {
    var s := [34] + Escape(x) + [34] + rest;
    SkipNone(s);
    assert s[1..] == Escape(x) + ([34] + rest);
    if x == [] {
      assert s[1..] == [34] + rest;
      EmptyStringBack(rest);
      v' := Str(CStr([34] + rest));
    } else {
      StringBack(x, rest);
      v' := Str(x);
    }
  }

  // ----- lists and objects

  /** What follows the last item: padding and the closing byte. */
  lemma CloseFollows(pad: Text, close: Byte, rest: Text)
    requires White(pad) && (close == 93 || close == 125)
    ensures Follows(pad + ([close] + rest))
    ensures SkipWhite(pad + ([close] + rest)) == [close] + rest
  {
    SkipPad(pad, [close] + rest);
    SkipNone([close] + rest);
    if pad != [] {
      assert pad[0] in pad;
    }
  }

  lemma ValueSkips(s: Text)
    ensures SkipWhite(SkipWhite(s)) == SkipWhite(s)
    ensures ParseValue(SkipWhite(s)) == ParseValue(s)
  {
    SkipNone(SkipWhite(s));
  }

  lemma ItemsSkip(s: Text)
    ensures ParseItems(SkipWhite(s)) == ParseItems(s)
  {
    ValueSkips(s);
  }

  lemma MembersSkip(s: Text)
    ensures ParseMembers(SkipWhite(s)) == ParseMembers(s)
  {
    SkipNone(SkipWhite(s));
    assert ParseMember(SkipWhite(s)) == ParseMember(s);
  }

  lemma PaddedValue(pad: Text, s: Text)
    requires White(pad)
    ensures ParseValue(pad + s) == ParseValue(s)
  {
    SkipPad(pad, s);
  }

  /** The key the parser reads ends at the first quote. */
  lemma KeyText(pad: Text, s: Text)
    requires White(pad)
    ensures
      var n := ToQuote(s);
      var after := SkipWhite(PastQuote(s, n));
      ParseKey(pad + ([34] + s)) == if 256 <= n || Head(after) != 58 then Err else Ok(CStr(s[..n]), after[1..])
  {
    SkipPad(pad, [34] + s);
    SkipNone([34] + s);
    assert ([34] + s)[1..] == s;
  }

  lemma KeyBack(pad: Text, key: Text, rest: Text)
    requires White(pad) && NulFree(key) && KeyFits(key)
    ensures ParseKey(pad + ([34] + key + [34, 58] + rest)) == Ok(key, rest)
  {
    hide ParseKey;
    var s := key + ([34] + ([58] + rest));
    assert [34] + key + [34, 58] + rest == [34] + s;
    KeyText(pad, s);
    QuoteAfter(key, [58] + rest);
    assert s[..|key|] == key && s[|key| + 1..] == [58] + rest;
    SkipNone([58] + rest);
    assert ([58] + rest)[1..] == rest;
  }

  /** The text after the first item of a list, up to `end`. */
  ghost function AfterItem(items: seq<Value>, pad: Text, indent: int, depth: nat, end: Text): Text
    requires items != [] && forall k :: 0 <= k < |items| ==> Fits(items[k], indent, depth)
  {
    if |items| == 1 then end else [44] + (PrintItems(items[1..], pad, indent, depth) + end)
  }

  lemma ItemsText(items: seq<Value>, pad: Text, indent: int, depth: nat, end: Text)
    requires items != [] && forall k :: 0 <= k < |items| ==> Fits(items[k], indent, depth)
    ensures PrintItems(items, pad, indent, depth) + end
         == pad + (Print(items[0], indent, depth) + AfterItem(items, pad, indent, depth, end))
  {
    var t := Print(items[0], indent, depth);
    var more := if |items| == 1 then [] else [44] + PrintItems(items[1..], pad, indent, depth);
    assert more + end == AfterItem(items, pad, indent, depth, end);
    Assoc(pad, t, more);
    Assoc(pad, t + more, end);
    Assoc(t, more, end);
  }

  ghost function AfterMember(members: seq<Member>, pad: Text, indent: int, depth: nat, end: Text): Text
    requires members != [] && forall k :: 0 <= k < |members| ==> Fits(members[k].value, indent, depth)
  {
    if |members| == 1 then end else [44] + (PrintMembers(members[1..], pad, indent, depth) + end)
  }

  lemma MembersText(members: seq<Member>, pad: Text, indent: int, depth: nat, end: Text)
    requires members != [] && forall k :: 0 <= k < |members| ==> Fits(members[k].value, indent, depth)
    requires NulFree(members[0].key)
    ensures PrintMembers(members, pad, indent, depth) + end
         == pad + ([34] + members[0].key + [34, 58]
                   + (Print(members[0].value, indent, depth) + AfterMember(members, pad, indent, depth, end)))
  {
    var key, t := members[0].key, Print(members[0].value, indent, depth);
    var more := if |members| == 1 then [] else [44] + PrintMembers(members[1..], pad, indent, depth);
    assert CStr(key) == key;
    Regroup(pad, [34], key, [34, 58], t, more, end);
    assert more + end == AfterMember(members, pad, indent, depth, end);
  }

  lemma Regroup<T>(a: seq<T>, b: seq<T>, c: seq<T>, d: seq<T>, e: seq<T>, f: seq<T>, g: seq<T>)
    ensures a + b + c + d + e + f + g == a + (b + c + d + (e + (f + g)))
  {
  }

  /** The round trip, whatever follows: parsing the printed text of a value consumes exactly that text, and gives
      the value back, integers re-kinded, if and only if it has no least 64-bit integer and no empty string. */
  lemma {:induction false} ParsePrint(v: Value, indent: int, depth: nat, rest: Text) returns (v': Value)
    requires Sound(v) && Fits(v, indent, depth) && KeysFit(v) && Follows(rest)
    ensures ParseValue(Print(v, indent, depth) + rest) == Ok(v', rest)
    ensures v' == Normal(v) <==> Exact(v)
    decreases v, 0
  {
    if v.List? {
      v' := ParseList(v.items, indent, depth, rest);
    } else if v.Object? {
      v' := ParseObject(v.members, indent, depth, rest);
    } else if v.Int? || v.I64? {
      v' := ParseInteger(v.i, rest);
    } else if v.Str? {
      v' := ParseText(v.s, rest);
    } else {
      ParseWord(v, rest);
      v' := v;
    }
  }

  lemma ListText(items: seq<Value>, indent: int, depth: nat, rest: Text)
    requires Fits(List(items), indent, depth)
    ensures Print(List(items), indent, depth) + rest
         == [91] + (PrintItems(items, OpenPad(indent, depth), indent, depth + 1)
                  + (ClosePad(indent, depth) + ([93] + rest)))
    ensures White(OpenPad(indent, depth)) && White(ClosePad(indent, depth))
  {
    PadsWhite(indent, depth);
  }

  lemma {:induction false} ParseList(items: seq<Value>, indent: int, depth: nat, rest: Text) returns (v': Value)
    requires Sound(List(items)) && Fits(List(items), indent, depth) && KeysFit(List(items))
    ensures ParseValue(Print(List(items), indent, depth) + rest) == Ok(v', rest)
    ensures v' == Normal(List(items)) <==> Exact(List(items))
    decreases items, 4
  {
    ListText(items, indent, depth, rest);
    var pad, close := OpenPad(indent, depth), ClosePad(indent, depth);
    if items == [] {
      CloseFollows(close, 93, rest);
      assert PrintItems(items, pad, indent, depth + 1) + (close + ([93] + rest)) == close + ([93] + rest);
      EmptyBack(91, 93, close + ([93] + rest), rest);
      v' := List([]);
    } else {
      var items' := ParseItemsBody(items, pad, indent, depth + 1, close, rest);
      v' := List(items');
      NormalItems(items, items');
    }
  }

  lemma NormalItems(items: seq<Value>, items': seq<Value>)
    requires |items'| == |items|
    ensures List(items') == Normal(List(items)) <==> forall k :: 0 <= k < |items| ==> items'[k] == Normal(items[k])
  {
    var normal := seq(|items|, k requires 0 <= k < |items| => Normal(items[k]));
    assert items' == normal <==> forall k :: 0 <= k < |items| ==> items'[k] == normal[k];
  }

  lemma {:induction false} ParseItemsBody(items: seq<Value>, pad: Text, indent: int, depth: nat, close: Text,
          rest: Text)
    returns (items': seq<Value>)
    requires items != [] && White(pad) && White(close)
    requires forall k :: 0 <= k < |items| ==> Sound(items[k]) && Fits(items[k], indent, depth) && KeysFit(items[k])
    ensures ParseValue([91] + (PrintItems(items, pad, indent, depth) + (close + ([93] + rest))))
         == Ok(List(items'), rest)
    ensures |items'| == |items|
    ensures (forall k :: 0 <= k < |items| ==> items'[k] == Normal(items[k]))
       <==> (forall k :: 0 <= k < |items| ==> Exact(items[k]))
    decreases items, 3
  {
    items' := ParseItemsPrint(items, pad, indent, depth, close, rest);
    ItemsHead(items, pad, indent, depth, close + ([93] + rest));
    ListBack(PrintItems(items, pad, indent, depth) + (close + ([93] + rest)));
  }

  lemma EmptyBack(open: Byte, close: Byte, body: Text, rest: Text)
    requires SkipWhite(body) == [close] + rest && ((open == 91 && close == 93) || (open == 123 && close == 125))
    ensures ParseValue([open] + body) == Ok(if open == 91 then List([]) else Object([]), rest)
  {
    SkipNone([open] + body);
    assert ([open] + body)[1..] == body && ([close] + rest)[1..] == rest;
  }

  lemma ListBack(body: Text)
    requires Head(SkipWhite(body)) != 93 && ParseItems(body).Ok?
    ensures ParseValue([91] + body) == Ok(List(ParseItems(body).value), ParseItems(body).rest)
  {
    SkipNone([91] + body);
    assert ([91] + body)[1..] == body;
    ItemsSkip(body);
  }

  lemma ObjectBack(body: Text)
    requires Head(SkipWhite(body)) != 125
    ensures ParseValue([123] + body).Ok? <==> ParseMembers(body).Ok?
    ensures ParseMembers(body).Ok? ==>
              ParseValue([123] + body) == Ok(Object(ParseMembers(body).value), ParseMembers(body).rest)
  {
    SkipNone([123] + body);
    assert ([123] + body)[1..] == body;
    MembersSkip(body);
  }

  lemma ItemsHead(items: seq<Value>, pad: Text, indent: int, depth: nat, end: Text)
    requires items != [] && White(pad) && forall k :: 0 <= k < |items| ==> Fits(items[k], indent, depth)
    ensures Head(SkipWhite(PrintItems(items, pad, indent, depth) + end)) != 93
  {
    ItemsText(items, pad, indent, depth, end);
    var t := Print(items[0], indent, depth) + AfterItem(items, pad, indent, depth, end);
    SkipPad(pad, t);
    PrintHead(items[0], indent, depth);
    SkipNone(t);
  }

  /** One turn of the loop of parse_array. */
  lemma ItemsStep(s: Text, v: Value, follow: Text)
    requires ParseValue(s) == Ok(v, follow)
    ensures Head(SkipWhite(follow)) == 93 ==> ParseItems(s) == Ok([v], SkipWhite(follow)[1..])
    ensures Head(SkipWhite(follow)) == 44 && ParseItems(SkipWhite(follow)[1..]).Ok? ==>
              var p := ParseItems(SkipWhite(follow)[1..]); ParseItems(s) == Ok([v] + p.value, p.rest)
  {
  }

  lemma {:induction false} ParseItemsPrint(items: seq<Value>, pad: Text, indent: int, depth: nat, close: Text,
          rest: Text)
    returns (items': seq<Value>)
    requires items != [] && White(pad) && White(close)
    requires forall k :: 0 <= k < |items| ==> Sound(items[k]) && Fits(items[k], indent, depth) && KeysFit(items[k])
    ensures ParseItems(PrintItems(items, pad, indent, depth) + (close + ([93] + rest))) == Ok(items', rest)
    ensures |items'| == |items|
    ensures (forall k :: 0 <= k < |items| ==> items'[k] == Normal(items[k]))
       <==> (forall k :: 0 <= k < |items| ==> Exact(items[k]))
    decreases items, 2
  {
    var end := close + ([93] + rest);
    CloseFollows(close, 93, rest);
    var follow := AfterItem(items, pad, indent, depth, end);
    var s := Print(items[0], indent, depth) + follow;
    ItemsText(items, pad, indent, depth, end);
    PaddedValue(pad, s);
    var v := ParsePrint(items[0], indent, depth, follow);
    ItemsStep(pad + s, v, follow);
    if |items| == 1 {
      assert ([93] + rest)[1..] == rest;
      items' := [v];
    } else {
      SkipNone(follow);
      assert follow[1..] == PrintItems(items[1..], pad, indent, depth) + end;
      var vs := ParseItemsPrint(items[1..], pad, indent, depth, close, rest);
      items' := [v] + vs;
      ItemsAll(items, v, vs);
    }
  }

  lemma ItemsAll(items: seq<Value>, v: Value, vs: seq<Value>)
    requires items != [] && |vs| == |items| - 1
    ensures (forall k :: 0 <= k < |items| ==> ([v] + vs)[k] == Normal(items[k])) <==>
            v == Normal(items[0]) && (forall k :: 0 <= k < |vs| ==> vs[k] == Normal(items[1..][k]))
    ensures (forall k :: 0 <= k < |items| ==> Exact(items[k])) <==>
            Exact(items[0]) && (forall k :: 0 <= k < |items[1..]| ==> Exact(items[1..][k]))
  {
    assert forall k :: 0 <= k < |vs| ==> ([v] + vs)[k + 1] == vs[k] && items[k + 1] == items[1..][k];
  }

  lemma ObjectText(members: seq<Member>, indent: int, depth: nat, rest: Text)
    requires Fits(Object(members), indent, depth)
    ensures Print(Object(members), indent, depth) + rest
         == [123] + (PrintMembers(members, OpenPad(indent, depth), indent, depth + 1)
                   + (ClosePad(indent, depth) + ([125] + rest)))
    ensures White(OpenPad(indent, depth)) && White(ClosePad(indent, depth))
  {
    PadsWhite(indent, depth);
  }

  lemma {:induction false} ParseObject(members: seq<Member>, indent: int, depth: nat, rest: Text) returns (v': Value)
    requires Sound(Object(members)) && KeysFit(Object(members)) && Fits(Object(members), indent, depth)
    ensures ParseValue(Print(Object(members), indent, depth) + rest) == Ok(v', rest)
    ensures v' == Normal(Object(members)) <==> Exact(Object(members))
    decreases members, 4
  {
    ObjectText(members, indent, depth, rest);
    var pad, close := OpenPad(indent, depth), ClosePad(indent, depth);
    if members == [] {
      CloseFollows(close, 125, rest);
      assert PrintMembers(members, pad, indent, depth + 1) + (close + ([125] + rest)) == close + ([125] + rest);
      EmptyBack(123, 125, close + ([125] + rest), rest);
      v' := Object([]);
    } else {
      assert forall k :: 0 <= k < |members| ==> MemberOk(members[k]);
      var members' := ParseMembersBody(members, pad, indent, depth + 1, close, rest);
      v' := Object(members');
      NormalMembers(members, members');
    }
  }

  lemma {:induction false} ParseMembersBody(members: seq<Member>, pad: Text, indent: int, depth: nat, close: Text,
          rest: Text)
    returns (members': seq<Member>)
    requires members != [] && White(pad) && White(close)
    requires forall k :: 0 <= k < |members| ==> MemberOk(members[k])
    requires forall k :: 0 <= k < |members| ==> Fits(members[k].value, indent, depth)
    ensures ParseValue([123] + (PrintMembers(members, pad, indent, depth) + (close + ([125] + rest))))
         == Ok(Object(members'), rest)
    ensures |members'| == |members| && forall k :: 0 <= k < |members| ==> members'[k].key == members[k].key
    ensures (forall k :: 0 <= k < |members| ==> members'[k].value == Normal(members[k].value))
       <==> (forall k :: 0 <= k < |members| ==> Exact(members[k].value))
    decreases members, 3
  {
    members' := ParseMembersPrint(members, pad, indent, depth, close, rest);
    assert MemberOk(members[0]);
    MembersHead(members, pad, indent, depth, close + ([125] + rest));
    ObjectBack(PrintMembers(members, pad, indent, depth) + (close + ([125] + rest)));
  }

  lemma NormalMembers(members: seq<Member>, members': seq<Member>)
    requires |members'| == |members| && forall k :: 0 <= k < |members| ==> members'[k].key == members[k].key
    ensures Object(members') == Normal(Object(members))
       <==> forall k :: 0 <= k < |members| ==> members'[k].value == Normal(members[k].value)
  {
    var normal := seq(|members|, k requires 0 <= k < |members| => Member(members[k].key, Normal(members[k].value)));
    assert members' == normal <==> forall k :: 0 <= k < |members| ==> members'[k] == normal[k];
  }

  lemma MembersHead(members: seq<Member>, pad: Text, indent: int, depth: nat, end: Text)
    requires members != [] && White(pad) && NulFree(members[0].key)
    requires forall k :: 0 <= k < |members| ==> Fits(members[k].value, indent, depth)
    ensures Head(SkipWhite(PrintMembers(members, pad, indent, depth) + end)) != 125
  {
    MembersText(members, pad, indent, depth, end);
    var t := [34] + members[0].key + [34, 58]
             + (Print(members[0].value, indent, depth) + AfterMember(members, pad, indent, depth, end));
    SkipPad(pad, t);
    SkipNone(t);
  }

  ghost predicate MemberOk(m: Member) {
    NulFree(m.key) && KeyFits(m.key) && Sound(m.value) && KeysFit(m.value)
  }

  /** One turn of the loop of parse_object. */
  lemma MembersStep(s: Text, key: Text, body: Text, v: Value, follow: Text)
    requires ParseKey(s) == Ok(key, body) && ParseValue(body) == Ok(v, follow)
    ensures Head(SkipWhite(follow)) == 125 ==> ParseMembers(s) == Ok([Member(key, v)], SkipWhite(follow)[1..])
    ensures Head(SkipWhite(follow)) == 44 && ParseMembers(SkipWhite(follow)[1..]).Ok? ==>
              var p := ParseMembers(SkipWhite(follow)[1..]); ParseMembers(s) == Ok([Member(key, v)] + p.value, p.rest)
  {
    ValueSkips(body);
  }

  lemma {:induction false} ParseMembersPrint(members: seq<Member>, pad: Text, indent: int, depth: nat, close: Text,
          rest: Text)
    returns (members': seq<Member>)
    requires members != [] && White(pad) && White(close)
    requires forall k :: 0 <= k < |members| ==> MemberOk(members[k])
    requires forall k :: 0 <= k < |members| ==> Fits(members[k].value, indent, depth)
    ensures ParseMembers(PrintMembers(members, pad, indent, depth) + (close + ([125] + rest))) == Ok(members', rest)
    ensures |members'| == |members| && forall k :: 0 <= k < |members| ==> members'[k].key == members[k].key
    ensures (forall k :: 0 <= k < |members| ==> members'[k].value == Normal(members[k].value))
       <==> (forall k :: 0 <= k < |members| ==> Exact(members[k].value))
    decreases members, 2
  {
    var end := close + ([125] + rest);
    var follow := AfterMember(members, pad, indent, depth, end);
    var v := ParseFirst(members, pad, indent, depth, close, rest);
    CloseFollows(close, 125, rest);
    if |members| == 1 {
      assert ([125] + rest)[1..] == rest;
      members' := [Member(members[0].key, v)];
    } else {
      SkipNone(follow);
      assert follow[1..] == PrintMembers(members[1..], pad, indent, depth) + end;
      var ms := ParseMembersPrint(members[1..], pad, indent, depth, close, rest);
      members' := [Member(members[0].key, v)] + ms;
      MembersAll(members, Member(members[0].key, v), ms);
    }
  }

  /** The first member, and what the loop of parse_object does after it. */
  lemma {:induction false} ParseFirst(members: seq<Member>, pad: Text, indent: int, depth: nat, close: Text, rest: Text)
    returns (v: Value)
    requires members != [] && White(pad) && White(close) && MemberOk(members[0])
    requires forall k :: 0 <= k < |members| ==> Fits(members[k].value, indent, depth)
    ensures
      var end := close + ([125] + rest);
      var s := PrintMembers(members, pad, indent, depth) + end;
      var after := SkipWhite(AfterMember(members, pad, indent, depth, end));
      && (Head(after) == 125 ==> ParseMembers(s) == Ok([Member(members[0].key, v)], after[1..]))
      && (Head(after) == 44 && ParseMembers(after[1..]).Ok? ==>
            var p := ParseMembers(after[1..]); ParseMembers(s) == Ok([Member(members[0].key, v)] + p.value, p.rest))
    ensures v == Normal(members[0].value) <==> Exact(members[0].value)
    decreases members, 1
  {
    var end := close + ([125] + rest);
    CloseFollows(close, 125, rest);
    var key := members[0].key;
    var follow := AfterMember(members, pad, indent, depth, end);
    var body := Print(members[0].value, indent, depth) + follow;
    MembersText(members, pad, indent, depth, end);
    KeyBack(pad, key, body);
    v := ParsePrint(members[0].value, indent, depth, follow);
    MembersStep(pad + ([34] + key + [34, 58] + body), key, body, v, follow);
  }

  lemma MembersAll(members: seq<Member>, m: Member, ms: seq<Member>)
    requires members != [] && |ms| == |members| - 1
    requires m.key == members[0].key && forall k :: 0 <= k < |ms| ==> ms[k].key == members[1..][k].key
    ensures forall k :: 0 <= k < |members| ==> ([m] + ms)[k].key == members[k].key
    ensures (forall k :: 0 <= k < |members| ==> ([m] + ms)[k].value == Normal(members[k].value)) <==>
            && m.value == Normal(members[0].value)
            && (forall k :: 0 <= k < |ms| ==> ms[k].value == Normal(members[1..][k].value))
    ensures (forall k :: 0 <= k < |members| ==> Exact(members[k].value)) <==>
            Exact(members[0].value) && (forall k :: 0 <= k < |members[1..]| ==> Exact(members[1..][k].value))
  {
    var rest, all := members[1..], [m] + ms;
    assert all[0] == m;
    assert forall k :: 0 < k < |members| ==> members[k] == rest[k - 1] && all[k] == ms[k - 1];
    assert forall k :: 0 <= k < |rest| ==> rest[k] == members[k + 1] && ms[k] == all[k + 1];
  }

  // ----- keys that do not fit

  lemma {:induction false} FirstQuote(key: Text, rest: Text)
    requires 34 in key
    ensures ToQuote(key + rest) < |key|
    decreases |key|
  {
    if key[0] != 34 {
      assert (key + rest)[1..] == key[1..] + rest;
      FirstQuote(key[1..], rest);
    }
  }

  /** A key longer than 255 bytes, or with a quote in it, never comes back. */
  lemma BadKey(pad: Text, key: Text, body: Text)
    requires White(pad) && NulFree(key) && !KeyFits(key)
    ensures var p := ParseKey(pad + ([34] + key + [34, 58] + body)); p.Ok? ==> p.value != key
  {
    var s := key + ([34] + ([58] + body));
    hide ParseKey;
    KeyText(pad, s);
    assert [34] + key + [34, 58] + body == [34] + s;
    if 34 in key {
      FirstQuote(key, [34] + ([58] + body));
    } else {
      QuoteAfter(key, [58] + body);
    }
  }

  ghost predicate ItemsMatch(items: seq<Value>, items': seq<Value>) {
    |items'| == |items| && forall k :: 0 <= k < |items| ==> items'[k] == Normal(items[k])
  }

  ghost predicate MembersMatch(members: seq<Member>, members': seq<Member>) {
    && |members'| == |members|
    && forall k :: 0 <= k < |members| ==> members'[k] == Member(members[k].key, Normal(members[k].value))
  }

  lemma ItemsMatchTail(items: seq<Value>, items': seq<Value>)
    requires items != [] && items' != []
    ensures ItemsMatch(items, items') ==> ItemsMatch(items[1..], items'[1..])
  {
  }

  lemma MembersMatchTail(members: seq<Member>, members': seq<Member>)
    requires members != [] && members' != []
    ensures MembersMatch(members, members') ==> MembersMatch(members[1..], members'[1..])
  {
  }

  lemma NormalIs(v: Value, v': Value)
    requires v' == Normal(v)
    ensures v.List? ==> v'.List? && ItemsMatch(v.items, v'.items)
    ensures v.Object? ==> v'.Object? && MembersMatch(v.members, v'.members)
  {
  }

  /** A value with a key that does not fit, however deep, does not come back. */
  lemma {:induction false} NotBack(v: Value, indent: int, depth: nat, rest: Text)
    requires Sound(v) && Fits(v, indent, depth) && !KeysFit(v)
    ensures var p := ParseValue(Print(v, indent, depth) + rest); p.Ok? ==> p.value != Normal(v)
    decreases v, 0
  {
    var p := ParseValue(Print(v, indent, depth) + rest);
    if p.Ok? && p.value == Normal(v) {
      NormalIs(v, p.value);
      var pad, close := OpenPad(indent, depth), ClosePad(indent, depth);
      if v.List? {
        ListText(v.items, indent, depth, rest);
        ListRead(PrintItems(v.items, pad, indent, depth + 1) + (close + ([93] + rest)));
        ItemsNotBack(v.items, pad, indent, depth + 1, close, rest);
      } else {
        ObjectText(v.members, indent, depth, rest);
        ObjectRead(PrintMembers(v.members, pad, indent, depth + 1) + (close + ([125] + rest)));
        MembersNotBack(v.members, pad, indent, depth + 1, close, rest);
      }
    }
  }

  lemma ListRead(body: Text)
    requires ParseValue([91] + body).Ok?
    ensures var v := ParseValue([91] + body).value;
            v.List? && (v.items != [] ==> ParseItems(body).Ok? && ParseItems(body).value == v.items)
  {
    SkipNone([91] + body);
    assert ([91] + body)[1..] == body;
    ItemsSkip(body);
  }

  lemma ObjectRead(body: Text)
    requires ParseValue([123] + body).Ok?
    ensures var v := ParseValue([123] + body).value;
            v.Object? && (v.members != [] ==> ParseMembers(body).Ok? && ParseMembers(body).value == v.members)
  {
    SkipNone([123] + body);
    assert ([123] + body)[1..] == body;
    MembersSkip(body);
  }

  /** The first turn of the loop of parse_array, and the rest. */
  lemma ItemsRead(s: Text)
    requires ParseItems(s).Ok?
    ensures ParseValue(s).Ok? && ParseItems(s).value != [] && ParseItems(s).value[0] == ParseValue(s).value
    ensures var after := SkipWhite(ParseValue(s).rest);
            Head(after) == 44 ==> ParseItems(after[1..]).Ok? && ParseItems(s).value[1..] == ParseItems(after[1..]).value
  {
  }

  lemma {:induction false} ItemsNotBack(items: seq<Value>, pad: Text, indent: int, depth: nat, close: Text, rest: Text)
    requires White(pad) && White(close)
    requires forall k :: 0 <= k < |items| ==> Sound(items[k]) && Fits(items[k], indent, depth)
    requires exists k :: 0 <= k < |items| && !KeysFit(items[k])
    ensures var p := ParseItems(PrintItems(items, pad, indent, depth) + (close + ([93] + rest)));
            p.Ok? ==> !ItemsMatch(items, p.value)
    decreases items, 2
  {
    var end := close + ([93] + rest);
    CloseFollows(close, 93, rest);
    var follow := AfterItem(items, pad, indent, depth, end);
    var s := Print(items[0], indent, depth) + follow;
    ItemsText(items, pad, indent, depth, end);
    PaddedValue(pad, s);
    var p := ParseItems(pad + s);
    if p.Ok? && ItemsMatch(items, p.value) {
      ItemsRead(pad + s);
      if !KeysFit(items[0]) {
        NotBack(items[0], indent, depth, follow);
      } else {
        var v := ParsePrint(items[0], indent, depth, follow);
        LaterItemsNotBack(items, pad, indent, depth, close, rest, p.value);
      }
    }
  }

  lemma {:induction false} LaterItemsNotBack(items: seq<Value>, pad: Text, indent: int, depth: nat, close: Text,
          rest: Text,
                                             items': seq<Value>)
    requires White(pad) && White(close) && items != [] && KeysFit(items[0])
    requires forall k :: 0 <= k < |items| ==> Sound(items[k]) && Fits(items[k], indent, depth)
    requires exists k :: 0 <= k < |items| && !KeysFit(items[k])
    requires
      var after := SkipWhite(AfterItem(items, pad, indent, depth, close + ([93] + rest)));
      items' != [] && (Head(after) == 44 ==> ParseItems(after[1..]).Ok? && items'[1..] == ParseItems(after[1..]).value)
    ensures !ItemsMatch(items, items')
    decreases items, 1
  {
    var end := close + ([93] + rest);
    var follow := AfterItem(items, pad, indent, depth, end);
    var more := items[1..];
    assert exists k :: 0 <= k < |more| && !KeysFit(more[k]) by {
      var k :| 0 <= k < |items| && !KeysFit(items[k]);
      assert more[k - 1] == items[k];
    }
    SkipNone(follow);
    assert follow[1..] == PrintItems(more, pad, indent, depth) + end;
    ItemsNotBack(more, pad, indent, depth, close, rest);
    ItemsMatchTail(items, items');
  }

  lemma MembersRead(s: Text)
    requires ParseMembers(s).Ok?
    ensures ParseKey(s).Ok? && ParseValue(ParseKey(s).rest).Ok? && ParseMembers(s).value != []
    ensures ParseMembers(s).value[0] == Member(ParseKey(s).value, ParseValue(ParseKey(s).rest).value)
    ensures var after := SkipWhite(ParseValue(ParseKey(s).rest).rest);
            Head(after) == 44 ==>
              ParseMembers(after[1..]).Ok? && ParseMembers(s).value[1..] == ParseMembers(after[1..]).value
  {
    ValueSkips(ParseKey(s).rest);
  }

  ghost predicate MemberBack(m: Member) { KeyFits(m.key) && KeysFit(m.value) }

  lemma {:induction false} MembersNotBack(members: seq<Member>, pad: Text, indent: int, depth: nat, close: Text,
          rest: Text)
    requires White(pad) && White(close)
    requires forall k :: 0 <= k < |members| ==> NulFree(members[k].key) && Sound(members[k].value)
    requires forall k :: 0 <= k < |members| ==> Fits(members[k].value, indent, depth)
    requires exists k :: 0 <= k < |members| && !MemberBack(members[k])
    ensures var p := ParseMembers(PrintMembers(members, pad, indent, depth) + (close + ([125] + rest)));
            p.Ok? ==> !MembersMatch(members, p.value)
    decreases members, 2
  {
    var end := close + ([125] + rest);
    CloseFollows(close, 125, rest);
    var key := members[0].key;
    var follow := AfterMember(members, pad, indent, depth, end);
    var body := Print(members[0].value, indent, depth) + follow;
    var s := pad + ([34] + key + [34, 58] + body);
    MembersText(members, pad, indent, depth, end);
    var p := ParseMembers(s);
    if p.Ok? && MembersMatch(members, p.value) {
      MembersRead(s);
      if !KeyFits(key) {
        BadKey(pad, key, body);
      } else {
        KeyBack(pad, key, body);
        if !KeysFit(members[0].value) {
          NotBack(members[0].value, indent, depth, follow);
        } else {
          var v := ParsePrint(members[0].value, indent, depth, follow);
          LaterMembersNotBack(members, pad, indent, depth, close, rest, p.value);
        }
      }
    }
  }

  lemma {:induction false} LaterMembersNotBack(members: seq<Member>, pad: Text, indent: int, depth: nat, close: Text,
          rest: Text,
                                               members': seq<Member>)
    requires White(pad) && White(close) && members != [] && MemberBack(members[0])
    requires forall k :: 0 <= k < |members| ==> NulFree(members[k].key) && Sound(members[k].value)
    requires forall k :: 0 <= k < |members| ==> Fits(members[k].value, indent, depth)
    requires exists k :: 0 <= k < |members| && !MemberBack(members[k])
    requires
      var after := SkipWhite(AfterMember(members, pad, indent, depth, close + ([125] + rest)));
      && members' != []
      && (Head(after) == 44 ==> ParseMembers(after[1..]).Ok? && members'[1..] == ParseMembers(after[1..]).value)
    ensures !MembersMatch(members, members')
    decreases members, 1
  {
    var end := close + ([125] + rest);
    var follow := AfterMember(members, pad, indent, depth, end);
    var more := members[1..];
    assert exists k :: 0 <= k < |more| && !MemberBack(more[k]) by {
      var k :| 0 <= k < |members| && !MemberBack(members[k]);
      assert more[k - 1] == members[k];
    }
    SkipNone(follow);
    assert follow[1..] == PrintMembers(more, pad, indent, depth) + end;
    MembersNotBack(more, pad, indent, depth, close, rest);
    MembersMatchTail(members, members');
  }

  // ----- whole documents

  /** At any depth, with any text behind it that does not go on with a number, a printed value comes back, integers
      re-kinded, and what follows is left, if and only if it is exact and its keys fit. */
  lemma PrintExact(v: Value, indent: int, depth: nat, rest: Text)
    requires Sound(v) && Fits(v, indent, depth) && Follows(rest)
    ensures ParseValue(Print(v, indent, depth) + rest) == Ok(Normal(v), rest) <==> Exact(v) && KeysFit(v)
  {
    if KeysFit(v) {
      var v' := ParsePrint(v, indent, depth, rest);
    } else {
      NotBack(v, indent, depth, rest);
    }
  }

  /** gql_json_parse of what gql_value_json printed gives the value back, integers re-kinded, and uses up the text, if
      and only if the value has no least 64-bit integer, no empty string, and no key the parser cannot read. */
  lemma RoundTrip(v: Value, indent: int)
    requires Sound(v) && Fits(v, indent, 0)
    ensures ParseValue(Print(v, indent, 0)) == Ok(Normal(v), []) <==> Exact(v) && KeysFit(v)
    ensures KeysFit(v) ==> ParseValue(Print(v, indent, 0)).Ok? && ParseValue(Print(v, indent, 0)).rest == []
  {
    assert Print(v, indent, 0) + [] == Print(v, indent, 0);
    PrintExact(v, indent, 0, []);
    if KeysFit(v) {
      var v' := ParsePrint(v, indent, 0, []);
    }
  }
}
