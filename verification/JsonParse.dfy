/** The JSON grammar of gqljson.c, as functions from the text not yet read to a value and the text left.

    Reading at or past the end reads the NUL that ends the C string.
 */
module JsonParse {
  import opened Bytes
  import opened Json
  import opened Parsing
  import opened Wrappers

  predicate IsWhite(b: Byte) { b == 9 || b == 10 || b == 13 || b == 32 }

  function SkipWhite(s: Text): (r: Text)
    ensures |r| <= |s| && !IsWhite(Head(r))
  {
    if IsWhite(Head(s)) then SkipWhite(s[1..]) else s
  }

  // ----- numbers

  const BIGGISH: int := 922337203685477580

  datatype Digited = Digited(i: int, big: bool, rest: Text)

  /** The digit loop: the number so far, and whether it has outgrown 64 bits. */
  function ReadDigits(s: Text, i: int, big: bool): (r: Digited)
    ensures |r.rest| <= |s| && !IsDigit(Head(r.rest))
  {
    if !IsDigit(Head(s)) then Digited(i, big, s)
    else
      var d := s[0] as int - 48;
      if big || (BIGGISH <= i && INT64_MAX - i * 10 < d) then ReadDigits(s[1..], i, true)
      else ReadDigits(s[1..], i * 10 + d, false)
  }

  /** gql_string_create: a length of 0 means the whole C string. */
  function StringCreate(start: Text, len: nat): Value
    requires len <= |start|
  {
    Str(if len == 0 then CStr(start) else CStr(start[..len]))
  }

  function IntValue(i: int, neg: bool): Value {
    var si := if neg then -i else i;
    if INT32_MAX < i then I64(si) else Int(si)
  }

  function ParseNum(s: Text): (p: Parse<Value>)
    requires s != []
    ensures p.Ok? ==> |p.rest| <= |s|
    ensures p.Ok? && (IsDigit(s[0]) || s[0] == 45 || s[0] == 43) ==> |p.rest| < |s|
  {
    var signed := s[0] == 45 || s[0] == 43;
    var r := ReadDigits(if signed then s[1..] else s, 0, false);
    if Head(r.rest) == 46 || Head(r.rest) == 101 || Head(r.rest) == 69 then Beyond
    else if r.big then Ok(StringCreate(s, |s| - |r.rest|), r.rest)
    else Ok(IntValue(r.i, s[0] == 45), r.rest)
  }

  // ----- strings

  function HexVal(b: Byte): int {
    if 48 <= b <= 57 then b as int - 48
    else if 65 <= b <= 70 then b as int - 55
    else if 97 <= b <= 102 then b as int - 87
    else -1
  }

  function ReadHex(s: Text): (p: Option<nat>)
    ensures p.Some? ==> |s| >= 4 && p.value < 0x10000
  {
    if |s| < 4 || HexVal(s[0]) < 0 || HexVal(s[1]) < 0 || HexVal(s[2]) < 0 || HexVal(s[3]) < 0 then None
    else Some(((HexVal(s[0]) * 16 + HexVal(s[1])) * 16 + HexVal(s[2])) * 16 + HexVal(s[3]))
  }

  /** unicode_to_chars for the codes four hex digits or a surrogate pair can give. */
  function Utf8(code: nat): Text
    requires code < 0x110000
  {
    if code <= 0x7F then [code as Byte]
    else if code <= 0x7FF then [(0xC0 + code / 64) as Byte, Tail(code)]
    else if code <= 0xFFFF then [(0xE0 + code / 4096) as Byte, Tail(code / 64), Tail(code)]
    else [(0xF0 + code / 262144) as Byte, Tail(code / 4096), Tail(code / 64), Tail(code)]
  }

  function Tail(code: nat): Byte {
    (0x80 + code % 64) as Byte
  }

  /** After "\u": the bytes of the code point. */
  function ReadUnicode(s: Text): (p: Parse<Text>)
    ensures p.Ok? ==> |p.rest| < |s|
  {
    var code := ReadHex(s);
    if code.None? then Err
    else if code.value < 0xD800 || 0xDFFF < code.value then Ok(Utf8(code.value), s[4..])
    else if |s| < 6 || s[4] != 92 || s[5] != 117 || ReadHex(s[6..]).None? then Err
    else
      var low := ReadHex(s[6..]).value;
      Ok(Utf8((code.value - 0xD800) % 1024 * 1024 + low % 1024 + 0x10000), s[10..])
  }

  /** The byte a one-letter escape stands for; 0 for a letter that is not one. */
  function Unletter(b: Byte): Byte {
    match b
    case 110 => 10
    case 114 => 13
    case 116 => 9
    case 102 => 12
    case 98 => 8
    case 34 => 34
    case 47 => 47
    case 92 => 92
    case _ => 0
  }

  /** The rest of a string with escapes, after the bytes `t`. */
  function ParseEscaped(s: Text, t: Text): (p: Parse<Value>)
    ensures p.Ok? ==> |p.rest| <= |s|
    decreases |s|
  {
    if s == [] then Ok(Str(CStr(t)), [])
    else if s[0] == 34 then Ok(Str(CStr(t)), s[1..])
    else if s[0] != 92 then ParseEscaped(s[1..], t + [s[0]])
    else if Head(s[1..]) == 117 then
      match ReadUnicode(s[2..])
      case Ok(bytes, rest) => ParseEscaped(rest, t + bytes)
      case _ => Err
    else if Unletter(Head(s[1..])) == 0 then Err
    else ParseEscaped(s[2..], t + [Unletter(s[1])])
  }

  /** The length of the text before the first quote. */
  function ToQuote(s: Text): (n: nat)
    ensures n <= |s| && (n < |s| ==> s[n] == 34) && forall k :: 0 <= k < n ==> s[k] != 34
  {
    if s == [] || s[0] == 34 then 0 else 1 + ToQuote(s[1..])
  }

  /** The text after the quote that ends at `n`, or nothing when there is none. */
  function PastQuote(s: Text, n: nat): (r: Text)
    requires n <= |s|
    ensures |r| <= |s|
  {
    if n < |s| then s[n + 1..] else []
  }

  /** A string, from just after its opening quote. */
  function ParseString(s: Text): (p: Parse<Value>)
    ensures p.Ok? ==> |p.rest| <= |s|
  {
    var n := ToQuote(s);
    if 92 in s[..n] then ParseEscaped(s, []) else Ok(StringCreate(s, n), PastQuote(s, n))
  }

  // ----- values

  function ParseValue(s: Text): (p: Parse<Value>)
    ensures p.Ok? ==> |p.rest| < |s|
    decreases |s|, 1
  {
    var s := SkipWhite(s);
    var c := Head(s);
    if c == 123 then
      var body := SkipWhite(s[1..]);
      if Head(body) == 125 then Ok(Object([]), body[1..])
      else
        match ParseMembers(body)
        case Ok(members, rest) => Ok(Object(members), rest)
        case Err => Err
        case Beyond => Beyond
    else if c == 91 then
      var body := SkipWhite(s[1..]);
      if Head(body) == 93 then Ok(List([]), body[1..])
      else
        match ParseItems(body)
        case Ok(items, rest) => Ok(List(items), rest)
        case Err => Err
        case Beyond => Beyond
    else if c == 34 then ParseString(s[1..])
    else if IsDigit(c) || c == 45 || c == 43 then ParseNum(s)
    else if TRUE_TEXT <= s then Ok(Bool(true), s[4..])
    else if FALSE_TEXT <= s then Ok(Bool(false), s[5..])
    else if NULL_TEXT <= s then Ok(Null, s[4..])
    else Err
  }

  /** The loop of parse_array, through the closing bracket. */
  function ParseItems(s: Text): (p: Parse<seq<Value>>)
    ensures p.Ok? ==> |p.rest| < |s|
    decreases |s|, 2
  {
    match ParseValue(s)
    case Err => Err
    case Beyond => Beyond
    case Ok(v, rest) =>
      var after := SkipWhite(rest);
      if Head(after) == 93 then Ok([v], after[1..])
      else if Head(after) != 44 then Err
      else After([v], ParseItems(after[1..]))
  }

  /** A key, from its opening quote through the colon. */
  function ParseKey(s: Text): (p: Parse<Text>)
    ensures p.Ok? ==> |p.rest| < |s|
  {
    var s := SkipWhite(s);
    if Head(s) != 34 then Err
    else
      var n := ToQuote(s[1..]);
      if 256 <= n then Err
      else
        var after := SkipWhite(PastQuote(s[1..], n));
        if Head(after) != 58 then Err else Ok(CStr(s[1..][..n]), after[1..])
  }

  function ParseMember(s: Text): (p: Parse<Member>)
    ensures p.Ok? ==> |p.rest| < |s|
    decreases |s|, 2
  {
    match ParseKey(s)
    case Err => Err
    case Beyond => Beyond
    case Ok(key, body) =>
      match ParseValue(SkipWhite(body))
      case Err => Err
      case Beyond => Beyond
      case Ok(v, rest) => Ok(Member(key, v), rest)
  }

  /** The loop of parse_object, through the closing brace. */
  function ParseMembers(s: Text): (p: Parse<seq<Member>>)
    ensures p.Ok? ==> |p.rest| < |s|
    decreases |s|, 3
  {
    match ParseMember(s)
    case Err => Err
    case Beyond => Beyond
    case Ok(m, rest) =>
      var after := SkipWhite(rest);
      if Head(after) == 125 then Ok([m], after[1..])
      else if Head(after) != 44 then Err
      else After([m], ParseMembers(after[1..]))
  }
}
