/** Reading selections (sdl.c, doc.c), as functions from the text not yet read to what was read and the text left.

    Reading at or past the end reads the NUL that ends the C string.  Beyond the model are variables, directives,
    fractions, block strings, and a list that never ends because nothing in it is read.
 */
module SdlParse {
  import opened Bytes
  import opened Wrappers
  import opened Parsing
  import opened SdlText
  import Json

  // ----- characters: the char_map table

  predicate IsWhite(b: Byte) { b == 9 || b == 10 || b == 13 || b == 32 || b == 44 }

  predicate IsToken(b: Byte) { 48 <= b <= 57 || 65 <= b <= 90 || b == 95 || 97 <= b <= 122 }

  /** agoo_doc_skip_comment: up to the end of the line. */
  function SkipComment(s: Text): (r: Text)
    ensures |r| <= |s| && (s != [] && s[0] == 35 ==> |r| < |s|)
  {
    if s == [] || s[0] == 10 || s[0] == 13 then s else SkipComment(s[1..])
  }

  /** agoo_doc_skip_white: white space, commas and comments. */
  function SkipWhite(s: Text): (r: Text)
    ensures |r| <= |s| && !IsWhite(Head(r)) && Head(r) != 35
    decreases |s|
  {
    if IsWhite(Head(s)) then SkipWhite(s[1..])
    else if Head(s) == 35 then SkipWhite(SkipComment(s))
    else s
  }

  function TokenRun(s: Text): (n: nat)
    ensures n <= |s| && forall i :: 0 <= i < n ==> IsToken(s[i])
  {
    if s != [] && IsToken(s[0]) then 1 + TokenRun(s[1..]) else 0
  }

  /** agoo_doc_read_token: how much of the text is a token; none if it starts with a digit. */
  function TokenLength(s: Text): (n: nat)
    ensures n <= |s| && forall i :: 0 <= i < n ==> IsToken(s[i])
  {
    if IsToken(Head(s)) && 57 < Head(s) then TokenRun(s) else 0
  }

  /** read_name: a token of at most 255 bytes. */
  function ReadName(s: Text): (p: Parse<Text>)
    ensures p.Ok? ==> |p.rest| < |s| && 0 < |p.value| < 256 && forall i :: 0 <= i < |p.value| ==> IsToken(p.value[i])
  {
    var n := TokenLength(s);
    if n == 0 || 256 <= n then Err else Ok(s[..n], s[n..])
  }

  // ----- values

  datatype Count = Count(i: nat, rest: Text)

  /** The digit loop; a number of INT64_MAX or more is too large. */
  function ReadDigits(s: Text, i: nat): (r: Option<Count>)
    ensures r.Some? ==> |r.value.rest| <= |s|
  {
    if !IsDigit(Head(s)) then Some(Count(i, s))
    else
      var more := i * 10 + (s[0] as int - 48);
      if Json.INT64_MAX <= more then None else ReadDigits(s[1..], more)
  }

  function IntValue(i: nat, neg: bool): Value {
    var si: int := if neg then -(i as int) else i;
    if Json.INT32_MAX < i then I64(si) else Int(si)
  }

  function ReadNumber(s: Text): (p: Parse<Value>)
    requires s != []
    ensures p.Ok? ==> |p.rest| <= |s| && (IsDigit(s[0]) || s[0] == 45 || s[0] == 43 ==> |p.rest| < |s|)
  {
    match ReadDigits(if s[0] == 45 || s[0] == 43 then s[1..] else s, 0)
    case None => Err
    case Some(c) => if Head(c.rest) == 46 then Beyond else Ok(IntValue(c.i, s[0] == 45), c.rest)
  }

  /** The bytes before the closing quote: the first that does not come after a backslash. */
  function ToQuote(s: Text, prev: Byte): (n: Option<nat>)
    ensures n.Some? ==> n.value < |s| && s[n.value] == 34
  {
    if s == [] then None
    else if s[0] == 34 && prev != 92 then Some(0)
    else
      match ToQuote(s[1..], s[0])
      case None => None
      case Some(n) => Some(n + 1)
  }

  /** agoo_doc_read_string.  Two quotes end an empty string, whose value is then everything behind one more byte; a
      string must not end the document. */
  function ReadString(s: Text): (p: Parse<Value>)
    requires s != [] && s[0] == 34
    ensures p.Ok? ==> |p.rest| < |s|
  {
    var body := s[1..];
    if Head(body) == 34 then
      if Head(body[1..]) == 34 || |body| < 2 then Beyond else Ok(Str(CStr(body[2..])), body[1..])
    else
      match ToQuote(body, 34)
      case None => Err
      case Some(n) => if body[n + 1..] == [] then Err else Ok(Str(CStr(body[..n])), body[n + 1..])
  }

  /** A token, or one of the words. */
  function TokenValue(t: Text): Value {
    if t == Json.NULL_TEXT then Null
    else if t == Json.TRUE_TEXT then Bool(true)
    else if t == Json.FALSE_TEXT then Bool(false)
    else Token(t)
  }

  /** agoo_doc_read_value without a type. */
  function ReadValue(s0: Text): (p: Parse<Value>)
    ensures p.Ok? ==> |p.rest| <= |s0|
    decreases |s0|, 1
  {
    var s := SkipWhite(s0);
    var h := Head(s);
    if h == 36 then Beyond
    else if h == 34 then ReadString(s)
    else if h == 45 || h == 43 || IsDigit(h) then ReadNumber(s)
    else if h == 91 then
      match ReadItems(s[1..])
      case Ok(items, rest) => Ok(List(items), rest)
      case Err => Err
      case Beyond => Beyond
    else if h == 123 then
      match ReadMembers(s[1..])
      case Ok(members, rest) => Ok(Object(members), rest)
      case Err => Err
      case Beyond => Beyond
    else
      // a token length of 0 means the whole C string
      var n := TokenLength(s);
      Ok(if n == 0 then Token(CStr(s)) else TokenValue(s[..n]), s[n..])
  }

  /** The loop over list members; at the end of the document the list just ends. */
  function ReadItems(s0: Text): (p: Parse<seq<Value>>)
    ensures p.Ok? ==> |p.rest| <= |s0|
    decreases |s0|, 2
  {
    if s0 == [] then Ok([], [])
    else
      var s := SkipWhite(s0);
      if Head(s) == 93 then Ok([], s[1..])
      else
        match ReadValue(s)
        case Err => Err
        case Beyond => Beyond
        case Ok(v, rest) =>
          if |rest| == |s0| then Beyond
          else
            match ReadItems(rest)
            case Ok(vs, end) => Ok([v] + vs, end)
            case Err => Err
            case Beyond => Beyond
  }

  /** The loop over object members. */
  function ReadMembers(s0: Text): (p: Parse<seq<Member>>)
    ensures p.Ok? ==> |p.rest| <= |s0|
    decreases |s0|, 2
  {
    if s0 == [] then Ok([], [])
    else
      var s := SkipWhite(s0);
      if Head(s) == 125 then Ok([], s[1..])
      else
        match ReadName(s)
        case Err => Err
        case Beyond => Beyond
        case Ok(key, after) =>
          if Head(after) != 58 then Err
          else
            match ReadValue(after[1..])
            case Err => Err
            case Beyond => Beyond
            case Ok(v, rest) =>
              match ReadMembers(rest)
              case Ok(ms, end) => Ok([Member(key, v)] + ms, end)
              case Err => Err
              case Beyond => Beyond
  }

  // ----- selections

  /** make_sel_arg, for literal values. */
  function ReadArg(s: Text): (p: Parse<Arg>)
    ensures p.Ok? ==> |p.rest| < |s|
  {
    match ReadName(SkipWhite(s))
    case Err => Err
    case Beyond => Beyond
    case Ok(name, rest) =>
      var after := SkipWhite(rest);
      if Head(after) != 58 then Err
      else
        match ReadValue(SkipWhite(after[1..]))
        case Ok(v, end) => Ok(Arg(name, v), end)
        case Err => Err
        case Beyond => Beyond
  }

  function ReadArgs(s0: Text): (p: Parse<seq<Arg>>)
    ensures p.Ok? ==> |p.rest| <= |s0|
    decreases |s0|
  {
    if s0 == [] then Ok([], [])
    else
      var s := SkipWhite(s0);
      if Head(s) == 41 then Ok([], s[1..])
      else
        match ReadArg(s)
        case Err => Err
        case Beyond => Beyond
        case Ok(arg, rest) =>
          match ReadArgs(rest)
          case Ok(args, end) => Ok([arg] + args, end)
          case Err => Err
          case Beyond => Beyond
  }

  predicate StartsWith(s: Text, word: Text) {
    |word| <= |s| && s[..|word|] == word
  }

  /** The name of a field and, after a colon, what the first was the alias of. */
  function ReadField(s: Text): (p: Parse<Sel>)
    ensures p.Ok? ==> |p.rest| < |s|
  {
    match ReadName(s)
    case Err => Err
    case Beyond => Beyond
    case Ok(first, rest) =>
      var after := SkipWhite(rest);
      if Head(after) != 58 then Ok(Sel(None, Some(first), None, None, [], []), after)
      else
        match ReadName(SkipWhite(after[1..]))
        case Ok(name, end) => Ok(Sel(Some(first), Some(name), None, None, [], []), SkipWhite(end))
        case Err => Err
        case Beyond => Beyond
  }

  /** make_sel.  `last` is the last byte of the document: an unfinished set is let pass when it is a brace. */
  function ReadSel(s0: Text, last: Byte): (p: Parse<Sel>)
    ensures p.Ok? ==> |p.rest| < |s0|
    decreases |s0|, 2
  {
    var s := SkipWhite(s0);
    match (if StartsWith(s, [46, 46, 46]) then ReadInline(s, last) else ReadField(s))
    case Err => Err
    case Beyond => Beyond
    case Ok(sel, rest) =>
      match SelArgs(sel, rest)
      case Err => Err
      case Beyond => Beyond
      case Ok(args, after) => SelBody(sel.(args := args), after, last)
  }

  /** The arguments of a selection that is not a spread. */
  function SelArgs(sel: Sel, s: Text): (p: Parse<seq<Arg>>)
    ensures p.Ok? ==> |p.rest| <= |s|
  {
    if sel.frag.None? && Head(s) == 40 then ReadArgs(s[1..]) else Ok([], s)
  }

  /** And the set of selections in it. */
  function SelBody(sel: Sel, s: Text, last: Byte): (p: Parse<Sel>)
    ensures p.Ok? ==> |p.rest| <= |s| && p.value.frag == sel.frag
    decreases |s|, 4
  {
    var end := SkipWhite(s);
    if Head(end) == 64 then Beyond
    else if sel.frag.None? && Head(end) == 123 then
      match ReadSels(end[1..], last)
      case Ok(sels, out) => Ok(sel.(sels := sels), out)
      case Err => Err
      case Beyond => Beyond
    else Ok(sel, end)
  }

  /** make_sel_inline, on the three dots: "on" starts an inline fragment, whatever comes behind it. */
  function ReadInline(s0: Text, last: Byte): (p: Parse<Sel>)
    requires |s0| >= 3
    ensures p.Ok? ==> |p.rest| < |s0|
    decreases |s0|, 1
  {
    var s := SkipWhite(s0[3..]);
    if StartsWith(s, [111, 110]) then
      match ReadName(SkipWhite(s[2..]))
      case Err => Err
      case Beyond => Beyond
      case Ok(on, rest) => InlineBody(on, rest, last)
    else if Head(s) == 64 then Beyond
    else
      match ReadName(s)
      case Ok(name, rest) => Ok(Sel(None, None, Some(name), None, [], []), rest)
      case Err => Err
      case Beyond => Beyond
  }

  /** The selections of an inline fragment. */
  function InlineBody(on: Text, s: Text, last: Byte): (p: Parse<Sel>)
    ensures p.Ok? ==> |p.rest| <= |s| && p.value.frag == None
    decreases |s|, 4
  {
    var after := SkipWhite(s);
    if Head(after) == 64 then Beyond
    else if Head(after) == 123 then
      match ReadSels(after[1..], last)
      case Ok(sels, end) => Ok(Sel(None, None, None, Some(Inline(on, sels)), [], []), end)
      case Err => Err
      case Beyond => Beyond
    else Ok(Sel(None, None, None, Some(Inline(on, [])), [], []), after)
  }

  /** The selections up to the closing brace. */
  function ReadSels(s0: Text, last: Byte): (p: Parse<seq<Sel>>)
    ensures p.Ok? ==> |p.rest| <= |s0|
    decreases |s0|, 3
  {
    if s0 == [] then if last == 125 then Ok([], []) else Err
    else
      var s := SkipWhite(s0);
      if Head(s) == 125 then Ok([], s[1..])
      else
        match ReadSel(s, last)
        case Err => Err
        case Beyond => Beyond
        case Ok(sel, rest) =>
          match ReadSels(rest, last)
          case Ok(sels, end) => Ok([sel] + sels, end)
          case Err => Err
          case Beyond => Beyond
  }
}
