/** Readable selections come back from their text: the SDL reader undoes the SDL printer. */
module SdlRoundTrip {
  import opened Bytes
  import opened Wrappers
  import opened SdlText
  import opened Parsing
  import opened SdlParse
  import Json
  import TextBuffer

  // ----- what comes back

  predicate AllToken(s: Text) {
    forall i :: 0 <= i < |s| ==> IsToken(s[i])
  }

  /** A name the reader takes: letters, digits and underscores, not a digit first, under 256 bytes. */
  predicate IsName(s: Text) {
    0 < |s| < 256 && AllToken(s) && 57 < s[0]
  }

  predicate IsWord(s: Text) {
    s == Json.NULL_TEXT || s == Json.TRUE_TEXT || s == Json.FALSE_TEXT
  }

  /** A string that prints without an escape. */
  ghost predicate Plain(s: Text) {
    forall i :: 0 <= i < |s| ==> TextBuffer.Width(s[i]) == 1
  }

  predicate IsTokenText(s: Text) {
    s != [] && AllToken(s) && 57 < s[0]
  }

  /** A value as it comes from a document or the application: C strings, tokens of token bytes, keys that are names. */
  ghost predicate Sound(v: Value) {
    match v
    case Str(s) => NulFree(s)
    case Token(s) => IsTokenText(s)
    case List(items) => forall k :: 0 <= k < |items| ==> Sound(items[k])
    case Object(members) => forall k :: 0 <= k < |members| ==> IsName(members[k].key) && Sound(members[k].value)
    case _ => true
  }

  /** A value that is read back: no integer of INT64_MAX or more in size, no empty string and none with an escape, and
      no token that is spelled like null, true or false. */
  ghost predicate Readable(v: Value) {
    match v
    case Int(i) => -Json.INT64_MAX < i < Json.INT64_MAX
    case I64(i) => -Json.INT64_MAX < i < Json.INT64_MAX
    case Str(s) => s != [] && NulFree(s) && Plain(s)
    case Token(s) => IsTokenText(s) && !IsWord(s)
    case List(items) => forall k :: 0 <= k < |items| ==> Readable(items[k])
    case Object(members) => forall k :: 0 <= k < |members| ==> IsName(members[k].key) && Readable(members[k].value)
    case _ => true
  }

  /** The value as it is read back: integers of 32 bits or more by their size. */
  function Norm(v: Value): Value
    decreases v, 0
  {
    match v
    case Int(i) => if Json.INT32_MAX < i || i < -Json.INT32_MAX then I64(i) else Int(i)
    case I64(i) => if Json.INT32_MAX < i || i < -Json.INT32_MAX then I64(i) else Int(i)
    case List(items) => List(NormItems(items))
    case Object(members) => Object(NormMembers(members))
    case _ => v
  }

  function NormItems(items: seq<Value>): seq<Value>
    decreases items, 1
  {
    if items == [] then [] else [Norm(items[0])] + NormItems(items[1..])
  }

  function NormMembers(members: seq<Member>): seq<Member>
    decreases members, 1
  {
    if members == [] then [] else [Member(members[0].key, Norm(members[0].value))] + NormMembers(members[1..])
  }

  ghost predicate ArgsReadable(args: seq<Arg>) {
    forall k :: 0 <= k < |args| ==> IsName(args[k].name) && Readable(args[k].value)
  }

  function NormArgs(args: seq<Arg>): seq<Arg> {
    if args == [] then [] else [Arg(args[0].name, Norm(args[0].value))] + NormArgs(args[1..])
  }

  const ON: Text := [111, 110]

  /** A spread, an inline fragment on a type, or a field, and nothing else in the selection. */
  ghost predicate Shaped(sel: Sel) {
    if sel.frag.Some? then
      sel == Sel(None, None, sel.frag, None, [], []) && IsName(sel.frag.value)
    else if sel.inl.Some? then
      sel == Sel(None, None, None, sel.inl, [], []) && IsName(sel.inl.value.on)
    else
      sel.name.Some? && IsName(sel.name.value) && (sel.alias.Some? ==> IsName(sel.alias.value))
  }

  ghost predicate ArgsSound(args: seq<Arg>) {
    forall k :: 0 <= k < |args| ==> IsName(args[k].name) && Sound(args[k].value)
  }

  /** Every selection without variables and directives. */
  ghost predicate SelSound(sel: Sel) {
    && Shaped(sel) && ArgsSound(sel.args)
    && (forall k :: 0 <= k < |sel.sels| ==> SelSound(sel.sels[k]))
    && (sel.inl.Some? ==> forall k :: 0 <= k < |sel.inl.value.sels| ==> SelSound(sel.inl.value.sels[k]))
  }

  /** What is read back besides: no spread of a name that starts with "on", and only readable arguments. */
  ghost predicate SelReadable(sel: Sel) {
    if sel.frag.Some? then
      && sel == Sel(None, None, sel.frag, None, [], [])
      && IsName(sel.frag.value) && !StartsWith(sel.frag.value, ON)
    else if sel.inl.Some? then
      && sel == Sel(None, None, None, sel.inl, [], []) && IsName(sel.inl.value.on)
      && forall k :: 0 <= k < |sel.inl.value.sels| ==> SelReadable(sel.inl.value.sels[k])
    else
      && sel.name.Some? && IsName(sel.name.value) && (sel.alias.Some? ==> IsName(sel.alias.value))
      && ArgsReadable(sel.args) && forall k :: 0 <= k < |sel.sels| ==> SelReadable(sel.sels[k])
  }

  function NormSel(sel: Sel): Sel
    decreases sel, 0
  {
    sel.(args := NormArgs(sel.args), sels := NormSels(sel.sels),
         inl := if sel.inl.Some? then Some(Inline(sel.inl.value.on, NormSels(sel.inl.value.sels))) else None)
  }

  function NormSels(sels: seq<Sel>): seq<Sel>
    decreases sels, 1
  {
    if sels == [] then [] else [NormSel(sels[0])] + NormSels(sels[1..])
  }

  // ----- characters

  lemma {:induction false} TokenRunBack(t: Text, rest: Text)
    requires AllToken(t) && !IsToken(Head(rest))
    ensures TokenRun(t + rest) == |t|
    decreases |t|
  {
    if t == [] {
      assert t + rest == rest;
    } else {
      assert (t + rest)[1..] == t[1..] + rest;
      TokenRunBack(t[1..], rest);
    }
  }

  lemma TokenBack(t: Text, rest: Text)
    requires t != [] && AllToken(t) && 57 < t[0] && !IsToken(Head(rest))
    ensures TokenLength(t + rest) == |t| && (t + rest)[..|t|] == t && (t + rest)[|t|..] == rest
    ensures SkipWhite(t + rest) == t + rest
  {
    TokenRunBack(t, rest);
    assert (t + rest)[0] == t[0];
  }

  lemma NameBack(t: Text, rest: Text)
    requires IsName(t) && !IsToken(Head(rest))
    ensures ReadName(t + rest) == Ok(t, rest) && SkipWhite(t + rest) == t + rest && Head(t + rest) == t[0]
  {
    TokenBack(t, rest);
  }

  lemma NameNulFree(t: Text)
    requires AllToken(t)
    ensures CStr(t) == t
  {
    assert NulFree(t);
  }

  /** Text that starts with something to read is not skipped. */
  lemma NotWhite(b: Byte, rest: Text)
    requires !IsWhite(b) && b != 35
    ensures SkipWhite([b] + rest) == [b] + rest && Head([b] + rest) == b && ([b] + rest)[1..] == rest
  {
  }

  lemma OneWhite(b: Byte, rest: Text)
    requires IsWhite(b)
    ensures SkipWhite([b] + rest) == SkipWhite(rest)
  {
    assert ([b] + rest)[1..] == rest;
  }

  lemma {:induction false} SkipBlanks(pad: Text, rest: Text)
    requires forall i :: 0 <= i < |pad| ==> IsWhite(pad[i])
    ensures SkipWhite(pad + rest) == SkipWhite(rest)
    decreases |pad|
  {
    if pad == [] {
      assert pad + rest == rest;
    } else {
      assert pad + rest == [pad[0]] + (pad[1..] + rest);
      OneWhite(pad[0], pad[1..] + rest);
      SkipBlanks(pad[1..], rest);
    }
  }

  lemma IndentWhite(depth: nat)
    ensures forall i :: 0 <= i < |Indent(depth)| ==> IsWhite(Indent(depth)[i])
  {
    forall i | 0 <= i < |Indent(depth)|
      ensures IsWhite(Indent(depth)[i])
    {
      assert Indent(depth)[i] == Spaces()[i];
    }
  }

  // ----- numbers

  lemma DigitStep(d: nat, tail: Text, i: nat)
    requires d < 10
    ensures ReadDigits([Json.Digit(d)] + tail, i)
         == if Json.INT64_MAX <= i * 10 + d then None else ReadDigits(tail, i * 10 + d)
  {
    assert ([Json.Digit(d)] + tail)[1..] == tail;
  }

  lemma {:induction false} DigitsBack(n: nat, rest: Text)
    requires n < Json.INT64_MAX
    ensures ReadDigits(Json.Digits(n) + rest, 0) == ReadDigits(rest, n)
    decreases n
  {
    if n < 10 {
      DigitStep(n, rest, 0);
    } else {
      DigitsBack(n / 10, [Json.Digit(n % 10)] + rest);
      DigitStep(n % 10, rest, n / 10);
      assert Json.Digits(n) + rest == Json.Digits(n / 10) + ([Json.Digit(n % 10)] + rest);
    }
  }

  /** A number of INT64_MAX or more is refused. */
  lemma {:induction false} DigitsTooBig(n: nat, rest: Text)
    requires n >= Json.INT64_MAX
    ensures ReadDigits(Json.Digits(n) + rest, 0) == None
    decreases n
  {
    assert Json.Digits(n) + rest == Json.Digits(n / 10) + ([Json.Digit(n % 10)] + rest);
    if n / 10 >= Json.INT64_MAX {
      DigitsTooBig(n / 10, [Json.Digit(n % 10)] + rest);
    } else {
      DigitsBack(n / 10, [Json.Digit(n % 10)] + rest);
      DigitStep(n % 10, rest, n / 10);
    }
  }

  /** What may follow a value: something, but no more of a token or number. */
  predicate Follows(rest: Text) {
    rest != [] && !IsToken(rest[0]) && rest[0] != 46
  }

  lemma DecimalHead(i: int, rest: Text)
    ensures var s := Json.Decimal(i) + rest;
            s != [] && (IsDigit(s[0]) || (s[0] == 45 && i < 0)) && (s[0] == 45 <==> i < 0)
    ensures i < 0 ==> (Json.Decimal(i) + rest)[1..] == Json.Digits(-i) + rest
  {
    var s := Json.Decimal(i) + rest;
    assert s[0] == Json.Decimal(i)[0];
    if i >= 0 {
      assert Json.Digits(i)[0] in Json.Digits(i);
    }
  }

  /** An integer is read back exactly when it is smaller than INT64_MAX in size. */
  lemma NumberExact(i: int, rest: Text)
    requires Follows(rest)
    ensures -Json.INT64_MAX < i < Json.INT64_MAX ==> ReadValue(Json.Decimal(i) + rest) == Ok(Norm(I64(i)), rest)
    ensures !(-Json.INT64_MAX < i < Json.INT64_MAX) ==> ReadValue(Json.Decimal(i) + rest) == Err
  {
    var s := Json.Decimal(i) + rest;
    DecimalHead(i, rest);
    var n: nat := if i < 0 then -i else i;
    assert SkipWhite(s) == s;
    if n < Json.INT64_MAX {
      DigitsBack(n, rest);
    } else {
      DigitsTooBig(n, rest);
    }
  }

  // ----- strings and tokens

  lemma PlainEscape(s: Text)
    requires Plain(s)
    ensures TextBuffer.Escape(s) == s
  {
    TextBuffer.PlainSize(s);
  }

  lemma {:induction false} QuoteBack(s: Text, prev: Byte, rest: Text)
    requires prev != 92 && forall i :: 0 <= i < |s| ==> s[i] != 34 && s[i] != 92
    ensures ToQuote(s + ([34] + rest), prev) == Some(|s|)
    decreases |s|
  {
    if s == [] {
      assert s + ([34] + rest) == [34] + rest;
    } else {
      assert (s + ([34] + rest))[1..] == s[1..] + ([34] + rest);
      QuoteBack(s[1..], s[0], rest);
    }
  }

  lemma PlainStringBack(s: Text, rest: Text)
    requires s != [] && NulFree(s) && Plain(s) && rest != []
    ensures ReadValue([34] + s + [34] + rest) == Ok(Str(s), rest)
  {
    var body := s + ([34] + rest);
    assert [34] + s + [34] + rest == [34] + body;
    NotWhite(34, body);
    QuoteBack(s, 34, rest);
    assert Head(body) == s[0] && TextBuffer.Width(s[0]) == 1;
    assert body[..|s|] == s && body[|s| + 1..] == rest;
  }

  lemma TokenValueBack(t: Text, rest: Text)
    requires t != [] && AllToken(t) && 57 < t[0] && Follows(rest)
    ensures ReadValue(t + rest) == Ok(TokenValue(t), rest)
  {
    TokenBack(t, rest);
    assert Head(t + rest) == t[0];
  }

  lemma TokenPlain(t: Text)
    requires AllToken(t)
    ensures TextBuffer.Escape(CStr(t)) == t
  {
    NameNulFree(t);
    PlainEscape(t);
  }

  // ----- values

  /** How a value can start. */
  predicate StartsValue(b: Byte) {
    b == 34 || b == 45 || b == 91 || b == 123 || IsDigit(b) || (IsToken(b) && 57 < b)
  }

  lemma ValueHead(v: Value, rest: Text)
    requires v.Token? ==> IsTokenText(v.s)
    ensures var s := PrintValue(v) + rest; s != [] && SkipWhite(s) == s && StartsValue(s[0])
  {
    match v {
      case Int(i) => DecimalHead(i, rest);
      case I64(i) => DecimalHead(i, rest);
      case Token(t) =>
        TokenPlain(t);
      case _ =>
        assert (PrintValue(v) + rest)[0] == PrintValue(v)[0];
    }
  }

  lemma LeafBack(v: Value, rest: Text)
    requires Readable(v) && !v.List? && !v.Object? && Follows(rest)
    ensures ReadValue(PrintValue(v) + rest) == Ok(Norm(v), rest)
  {
    hide ReadValue;
    match v {
      case Null => TokenValueBack(Json.NULL_TEXT, rest);
      case Bool(b) => TokenValueBack(if b then Json.TRUE_TEXT else Json.FALSE_TEXT, rest);
      case Int(i) => NumberExact(i, rest);
      case I64(i) => NumberExact(i, rest);
      case Str(s) =>
        PlainEscape(s);
        PlainStringBack(s, rest);
      case Token(t) =>
        TokenPlain(t);
        TokenValueBack(t, rest);
    }
  }

  /** A printed list or object is read as its first byte says. */
  lemma ListReads(items: seq<Value>, rest: Text)
    ensures var p, q := ReadValue(PrintValue(List(items)) + rest), ReadItems(PrintItems(items) + ([93] + rest));
            p == match q case Ok(vs, end) => Ok(List(vs), end) case Err => Err case Beyond => Beyond
  {
    hide PrintItems, ReadItems, ReadMembers;
    ListText(91, PrintItems(items), 93, rest);
    NotWhite(91, PrintItems(items) + ([93] + rest));
  }

  lemma ObjectReads(members: seq<Member>, rest: Text)
    ensures var p, q := ReadValue(PrintValue(Object(members)) + rest),
                     ReadMembers(PrintMembers(members) + ([125] + rest));
            p == match q case Ok(ms, end) => Ok(Object(ms), end) case Err => Err case Beyond => Beyond
  {
    hide PrintMembers, ReadMembers, ReadItems;
    ListText(123, PrintMembers(members), 125, rest);
    NotWhite(123, PrintMembers(members) + ([125] + rest));
  }

  lemma {:induction false} ValueBack(v: Value, rest: Text)
    requires Readable(v) && Follows(rest)
    ensures ReadValue(PrintValue(v) + rest) == Ok(Norm(v), rest)
    decreases v, 0
  {
    hide PrintValue, PrintItems, PrintMembers, ReadValue, ReadItems, ReadMembers;
    if v.List? {
      ListReads(v.items, rest);
      ItemsBack(v.items, rest);
    } else if v.Object? {
      ObjectReads(v.members, rest);
      MembersBack(v.members, rest);
    } else {
      LeafBack(v, rest);
    }
  }

  lemma ListText(open: Byte, body: Text, close: Byte, rest: Text)
    ensures [open] + body + [close] + rest == [open] + (body + ([close] + rest))
  {
  }

  lemma {:induction false} ItemsBack(items: seq<Value>, rest: Text)
    requires forall k :: 0 <= k < |items| ==> Readable(items[k])
    ensures ReadItems(PrintItems(items) + ([93] + rest)) == Ok(NormItems(items), rest)
    decreases items, 1
  {
    if items == [] {
      assert PrintItems(items) + ([93] + rest) == [93] + rest;
      NotWhite(93, rest);
    } else {
      var v, more := items[0], items[1..];
      var tail := if more == [] then [93] + rest else [44] + (PrintItems(more) + ([93] + rest));
      ItemsSplit(items, [93] + rest);
      ValueBack(v, tail);
      ValueHead(v, tail);
      ItemsBack(more, rest);
      if more == [] {
        NotWhite(93, rest);
      } else {
        CommaItems(PrintItems(more) + ([93] + rest));
      }
      ItemsStep(PrintValue(v) + tail, Norm(v), tail);
    }
  }

  lemma ItemsSplit(items: seq<Value>, end: Text)
    requires items != []
    ensures PrintItems(items) + end
         == PrintValue(items[0]) + if |items| == 1 then end else [44] + (PrintItems(items[1..]) + end)
  {
    hide PrintValue;
    ItemsText(items);
    if |items| == 1 {
      NoTail(PrintValue(items[0]), end);
    } else {
      SomeTail(PrintValue(items[0]), [44], PrintItems(items[1..]), end);
    }
  }

  lemma ItemsText(items: seq<Value>)
    requires items != []
    ensures PrintItems(items) == PrintValue(items[0]) + if |items| == 1 then [] else [44] + PrintItems(items[1..])
  {
    hide PrintValue;
  }

  lemma NoTail(a: Text, end: Text)
    ensures a + [] + end == a + end
  {
  }

  lemma SomeTail(a: Text, comma: Text, c: Text, end: Text)
    ensures a + (comma + c) + end == a + (comma + (c + end))
  {
  }

  lemma CommaItems(t: Text)
    requires t != [] && ReadItems(t).Ok?
    ensures ReadItems([44] + t) == ReadItems(t)
  {
    OneWhite(44, t);
  }

  lemma ItemsStep(s: Text, v: Value, tail: Text)
    requires s != [] && SkipWhite(s) == s && s[0] != 93 && ReadValue(s) == Ok(v, tail) && |tail| < |s|
    requires ReadItems(tail).Ok?
    ensures ReadItems(s) == Ok([v] + ReadItems(tail).value, ReadItems(tail).rest)
  {
  }

  lemma {:induction false} MembersBack(members: seq<Member>, rest: Text)
    requires forall k :: 0 <= k < |members| ==> IsName(members[k].key) && Readable(members[k].value)
    ensures ReadMembers(PrintMembers(members) + ([125] + rest)) == Ok(NormMembers(members), rest)
    decreases members, 1
  {
    if members == [] {
      assert PrintMembers(members) + ([125] + rest) == [125] + rest;
      NotWhite(125, rest);
    } else {
      var m, more := members[0], members[1..];
      var tail := if more == [] then [125] + rest else [44] + (PrintMembers(more) + ([125] + rest));
      MembersSplit(members, [125] + rest);
      ValueBack(m.value, tail);
      NameBack(m.key, [58] + (PrintValue(m.value) + tail));
      MembersBack(more, rest);
      if more == [] {
        NotWhite(125, rest);
      } else {
        CommaMembers(PrintMembers(more) + ([125] + rest));
      }
      MembersStep(m.key, PrintValue(m.value) + tail, Norm(m.value), tail);
    }
  }

  lemma MembersSplit(members: seq<Member>, end: Text)
    requires members != [] && IsName(members[0].key)
    ensures PrintMembers(members) + end
         == members[0].key + ([58] + (PrintValue(members[0].value)
            + if |members| == 1 then end else [44] + (PrintMembers(members[1..]) + end)))
  {
    hide PrintValue;
    MembersText(members);
    var key, v := members[0].key, PrintValue(members[0].value);
    if |members| == 1 {
      Shape(key, [58], v, [], end);
      Empty(end);
    } else {
      Shape(key, [58], v, [44] + PrintMembers(members[1..]), end);
      Assoc([44], PrintMembers(members[1..]), end);
    }
  }

  lemma MembersText(members: seq<Member>)
    requires members != [] && IsName(members[0].key)
    ensures PrintMembers(members) == members[0].key + ([58] + (PrintValue(members[0].value)
              + if |members| == 1 then [] else [44] + PrintMembers(members[1..])))
  {
    hide PrintValue;
    NameNulFree(members[0].key);
  }

  lemma Empty(end: Text)
    ensures [] + end == end
  {
  }

  lemma Shape(a: Text, b: Text, c: Text, d: Text, end: Text)
    ensures a + (b + (c + d)) + end == a + (b + (c + (d + end)))
  {
  }

  lemma CommaMembers(t: Text)
    requires t != []
    ensures ReadMembers([44] + t) == ReadMembers(t)
  {
    OneWhite(44, t);
  }

  lemma MembersStep(key: Text, body: Text, v: Value, tail: Text)
    requires IsName(key) && ReadValue(body) == Ok(v, tail) && ReadMembers(tail).Ok?
    ensures ReadMembers(key + ([58] + body))
         == Ok([Member(key, v)] + ReadMembers(tail).value, ReadMembers(tail).rest)
  {
    NameBack(key, [58] + body);
    assert ([58] + body)[1..] == body;
  }

  // ----- arguments

  lemma ArgsText(args: seq<Arg>)
    requires args != [] && IsName(args[0].name)
    ensures PrintArgs(args) == args[0].name + ([58, 32] + (PrintValue(args[0].value)
              + if |args| == 1 then [] else [44, 32] + PrintArgs(args[1..])))
  {
    hide PrintValue;
    NameNulFree(args[0].name);
  }

  lemma ArgsSplit(args: seq<Arg>, end: Text)
    requires args != [] && IsName(args[0].name)
    ensures PrintArgs(args) + end
         == args[0].name + ([58, 32] + (PrintValue(args[0].value)
            + if |args| == 1 then end else [44, 32] + (PrintArgs(args[1..]) + end)))
  {
    hide PrintValue, PrintArgs;
    ArgsText(args);
    var name, v := args[0].name, PrintValue(args[0].value);
    if |args| == 1 {
      Shape(name, [58, 32], v, [], end);
      Empty(end);
    } else {
      Shape(name, [58, 32], v, [44, 32] + PrintArgs(args[1..]), end);
      Assoc([44, 32], PrintArgs(args[1..]), end);
    }
  }

  lemma TwoWhite(b: Byte, c: Byte, t: Text)
    requires IsWhite(b) && IsWhite(c)
    ensures SkipWhite([b, c] + t) == SkipWhite(t)
  {
    assert [b, c] + t == [b] + ([c] + t);
    OneWhite(b, [c] + t);
    OneWhite(c, t);
  }

  lemma ArgReads(name: Text, v: Text)
    requires IsName(name) && SkipWhite(v) == v
    ensures var p := ReadArg(name + ([58, 32] + v));
            && (p.Ok? <==> ReadValue(v).Ok?)
            && (p.Ok? ==> p == Ok(Arg(name, ReadValue(v).value), ReadValue(v).rest))
  {
    hide ReadValue;
    var s := [58, 32] + v;
    assert s == [58] + ([32] + v);
    NameBack(name, s);
    NotWhite(58, [32] + v);
    OneWhite(32, v);
  }

  lemma ArgBack(arg: Arg, tail: Text)
    requires IsName(arg.name) && Readable(arg.value) && Follows(tail)
    ensures ReadArg(arg.name + ([58, 32] + (PrintValue(arg.value) + tail))) == Ok(Arg(arg.name, Norm(arg.value)), tail)
  {
    ValueBack(arg.value, tail);
    ValueHead(arg.value, tail);
    hide PrintValue;
    ArgReads(arg.name, PrintValue(arg.value) + tail);
  }

  lemma {:induction false} ArgsBack(args: seq<Arg>, rest: Text)
    requires ArgsReadable(args)
    ensures ReadArgs(PrintArgs(args) + ([41] + rest)) == Ok(NormArgs(args), rest)
    decreases |args|
  {
    if args == [] {
      assert PrintArgs(args) + ([41] + rest) == [41] + rest;
      NotWhite(41, rest);
    } else {
      var arg, more := args[0], args[1..];
      var tail := if more == [] then [41] + rest else [44, 32] + (PrintArgs(more) + ([41] + rest));
      ArgsSplit(args, [41] + rest);
      ArgBack(arg, tail);
      ArgsBack(more, rest);
      if more == [] {
        NotWhite(41, rest);
      } else {
        CommaArgs(PrintArgs(more) + ([41] + rest));
      }
      ArgsStep(arg.name, [58, 32] + (PrintValue(arg.value) + tail), Norm(arg.value), tail);
    }
  }

  lemma CommaArgs(t: Text)
    requires t != []
    ensures ReadArgs([44, 32] + t) == ReadArgs(t)
  {
    TwoWhite(44, 32, t);
  }

  lemma ArgsStep(name: Text, body: Text, v: Value, tail: Text)
    requires IsName(name) && body != [] && body[0] == 58
    requires ReadArg(name + body) == Ok(Arg(name, v), tail) && ReadArgs(tail).Ok?
    ensures ReadArgs(name + body) == Ok([Arg(name, v)] + ReadArgs(tail).value, ReadArgs(tail).rest)
  {
    NameBack(name, body);
  }

  // ----- selections

  /** What follows a selection: nothing that would be read as more of it. */
  predicate NoMore(rest: Text) {
    var h := Head(SkipWhite(rest)); h != 58 && h != 40 && h != 64 && h != 123
  }

  lemma {:induction false} SkipTwice(s: Text)
    ensures SkipWhite(SkipWhite(s)) == SkipWhite(s)
  {
  }

  lemma ReadSelSkip(s: Text, last: Byte)
    ensures ReadSel(SkipWhite(s), last) == ReadSel(s, last)
  {
    SkipTwice(s);
  }

  lemma ReadSelsSkip(s: Text, t: Text, last: Byte)
    requires s != [] && t != [] && SkipWhite(s) == SkipWhite(t)
    ensures ReadSels(s, last) == ReadSels(t, last)
  {
  }

  /** The text of a selection behind its indentation. */
  ghost function Core(sel: Sel, depth: nat): Text {
    PrintHead(sel)
    + ((if sel.frag.Some? then []
        else if sel.inl.Some? then PrintBody(sel.inl.value.sels, depth)
        else PrintBody(sel.sels, depth))
    + [10])
  }

  lemma CoreText(sel: Sel, depth: nat, rest: Text)
    ensures SkipWhite(PrintSel(sel, depth) + rest) == SkipWhite(Core(sel, depth) + rest)
  {
    hide PrintHead, PrintBody;
    IndentWhite(depth);
    Assoc(Indent(depth), Core(sel, depth), rest);
    SkipBlanks(Indent(depth), Core(sel, depth) + rest);
  }

  /** A printed selection starts with a letter, an underscore or the dots. */
  lemma CoreHead(sel: Sel, depth: nat, rest: Text)
    requires Shaped(sel)
    ensures var s := Core(sel, depth) + rest;
            s != [] && SkipWhite(s) == s && (s[0] == 46 || (IsToken(s[0]) && 57 < s[0]))
  {
    var h := PrintHead(sel);
    hide PrintBody;
    if sel.frag.Some? {
      assert h[0] == 46;
    } else if sel.inl.Some? {
      assert h[0] == 46;
    } else if sel.alias.Some? {
      NameNulFree(sel.alias.value);
      assert h[0] == sel.alias.value[0];
    } else {
      NameNulFree(sel.name.value);
      assert h[0] == sel.name.value[0];
    }
    assert (Core(sel, depth) + rest)[0] == h[0];
  }

  lemma SpreadBack(sel: Sel, depth: nat, rest: Text, last: Byte)
    requires SelReadable(sel) && sel.frag.Some? && NoMore(rest)
    ensures ReadSel(Core(sel, depth) + rest, last) == Ok(sel, SkipWhite(rest))
  {
    var name := sel.frag.value;
    var t := [10] + rest;
    SpreadText(sel, depth, rest);
    OneWhite(10, rest);
    SpreadName(name, t, last);
    hide Core, ReadInline;
    assert sel.(args := []) == sel;
    DotsInline(name + t, last);
  }

  lemma SpreadName(name: Text, t: Text, last: Byte)
    requires IsName(name) && !StartsWith(name, ON) && t != [] && t[0] == 10
    ensures ReadInline([46, 46, 46] + (name + t), last) == Ok(Sel(None, None, Some(name), None, [], []), t)
  {
    NameBack(name, t);
    DotsInline(name + t, last);
    if |name| >= 2 {
      assert (name + t)[..2] == name[..2];
    } else {
      assert (name + t)[..2][1] == 10;
    }
  }

  /** Behind the dots: a fragment name unless it starts with "on". */
  lemma DotsInline(t: Text, last: Byte)
    ensures var s := [46, 46, 46] + t;
            SkipWhite(s) == s && StartsWith(s, [46, 46, 46]) && s[3..] == t
  {
    NotWhite(46, [46, 46] + t);
    assert [46, 46, 46] + t == [46] + ([46, 46] + t);
    assert ([46, 46, 46] + t)[..3] == [46, 46, 46];
  }

  /** What is left is the text that follows, but for white space. */
  ghost predicate BackTo(p: Parse<Sel>, sel: Sel, rest: Text) {
    p.Ok? && p.value == sel && SkipWhite(p.rest) == SkipWhite(rest)
  }

  /** The selections of a body come back, up to what follows its brace. */
  ghost predicate BodyReads(sels: seq<Sel>, depth: nat, t: Text, last: Byte) {
    ReadSels(PrintSels(sels, depth + 1) + (Indent(depth) + ([125] + t)), last) == Ok(NormSels(sels), t)
  }

  lemma BodyText(sels: seq<Sel>, depth: nat, t: Text)
    requires sels != []
    ensures PrintBody(sels, depth) + t
         == [32] + ([123] + ([10] + (PrintSels(sels, depth + 1) + (Indent(depth) + ([125] + t)))))
  {
    hide PrintSels, Indent;
    var a, b := PrintSels(sels, depth + 1), Indent(depth);
    assert [32, 123, 10] + (a + (b + [125])) + t == [32] + ([123] + ([10] + (a + (b + ([125] + t)))));
  }

  /** The brace that opens a body, and what is read behind it. */
  lemma BodyOpens(sels: seq<Sel>, depth: nat, t: Text, last: Byte)
    requires sels != []
    ensures var s := PrintBody(sels, depth) + t;
            && s != [] && s[0] == 32 && Head(SkipWhite(s)) == 123
            && ReadSels(SkipWhite(s)[1..], last)
               == ReadSels(PrintSels(sels, depth + 1) + (Indent(depth) + ([125] + t)), last)
  {
    BodyText(sels, depth, t);
    hide PrintSels, Indent, ReadSels;
    var inner := PrintSels(sels, depth + 1) + (Indent(depth) + ([125] + t));
    OneWhite(32, [123] + ([10] + inner));
    NotWhite(123, [10] + inner);
    OneWhite(10, inner);
    assert inner != [] by { assert |inner| >= |[125] + t| >= 1; }
    ReadSelsSkip([10] + inner, inner, last);
  }

  lemma InlineBack(sel: Sel, depth: nat, rest: Text, last: Byte)
    requires SelReadable(sel) && sel.frag.None? && sel.inl.Some? && NoMore(rest)
    requires sel.inl.value.sels == [] || BodyReads(sel.inl.value.sels, depth, [10] + rest, last)
    ensures BackTo(ReadSel(Core(sel, depth) + rest, last), NormSel(sel), rest)
  {
    var on, sels := sel.inl.value.on, sel.inl.value.sels;
    var t := [10] + rest;
    var b := PrintBody(sels, depth) + t;
    OnText(sel, depth, rest);
    OneWhite(10, rest);
    SkipTwice(rest);
    if sels == [] {
      assert b == t;
    } else {
      BodyOpens(sels, depth, t, last);
    }
    assert b != [] && !IsToken(b[0]);
    OnBack(on, b, last);
    InlineBodyBack(on, sels, b, t, last);
    InlineNorm(sel);
    hide PrintBody, Core, ReadSels, InlineBody, NormSel;
    DotsInline([32, 111, 110, 32] + (on + b), last);
    InlineSel([46, 46, 46] + ([32, 111, 110, 32] + (on + b)), NormSel(sel),
              if sels == [] then SkipWhite(t) else t, last);
  }

  lemma InlineBodyBack(on: Text, sels: seq<Sel>, b: Text, t: Text, last: Byte)
    requires if sels == [] then b == t && Head(SkipWhite(t)) != 64 && Head(SkipWhite(t)) != 123
             else Head(SkipWhite(b)) == 123 && ReadSels(SkipWhite(b)[1..], last) == Ok(NormSels(sels), t)
    ensures InlineBody(on, b, last)
         == Ok(Sel(None, None, None, Some(Inline(on, NormSels(sels))), [], []), if sels == [] then SkipWhite(t) else t)
  {
    hide ReadSels;
  }

  lemma InlineNorm(sel: Sel)
    requires SelReadable(sel) && sel.frag.None? && sel.inl.Some?
    ensures NormSel(sel)
         == Sel(None, None, None, Some(Inline(sel.inl.value.on, NormSels(sel.inl.value.sels))), [], [])
  {
  }

  /** An inline fragment that has been read stands as the selection. */
  lemma InlineSel(s: Text, sel: Sel, rest: Text, last: Byte)
    requires SkipWhite(s) == s && StartsWith(s, [46, 46, 46]) && ReadInline(s, last) == Ok(sel, rest)
    requires sel.args == [] && Head(rest) != 40 && Head(SkipWhite(rest)) != 64 && Head(SkipWhite(rest)) != 123
    ensures ReadSel(s, last) == Ok(sel, SkipWhite(rest))
  {
    hide ReadInline;
    assert sel.(args := []) == sel;
  }

  lemma OnText(sel: Sel, depth: nat, rest: Text)
    requires Shaped(sel) && sel.frag.None? && sel.inl.Some?
    ensures Core(sel, depth) + rest
         == [46, 46, 46] + ([32, 111, 110, 32]
                    + (sel.inl.value.on + (PrintBody(sel.inl.value.sels, depth) + ([10] + rest))))
  {
    hide PrintBody;
    var on, body := sel.inl.value.on, PrintBody(sel.inl.value.sels, depth);
    NameNulFree(on);
    assert [46, 46, 46, 32, 111, 110, 32] + on + (body + [10]) + rest
        == [46, 46, 46] + ([32, 111, 110, 32] + (on + (body + ([10] + rest))));
  }

  /** Behind the dots, "on" and a type name. */
  lemma OnBack(on: Text, b: Text, last: Byte)
    requires IsName(on) && b != [] && !IsToken(b[0])
    ensures ReadInline([46, 46, 46] + ([32, 111, 110, 32] + (on + b)), last) == InlineBody(on, b, last)
  {
    var u := [32, 111, 110, 32] + (on + b);
    DotsInline(u, last);
    OnWord(on + b);
    NameBack(on, b);
    hide InlineBody, ReadName, SkipWhite;
    assert ([46, 46, 46] + u)[3..] == u;
  }

  lemma OnWord(u: Text)
    ensures var s := SkipWhite([32, 111, 110, 32] + u);
            StartsWith(s, ON) && SkipWhite(s[2..]) == SkipWhite(u)
  {
    var s := [111] + ([110, 32] + u);
    assert [32, 111, 110, 32] + u == [32] + s;
    OneWhite(32, s);
    NotWhite(111, [110, 32] + u);
    assert s[..2] == ON && s[2..] == [32] + u;
    OneWhite(32, u);
  }

  // ----- fields

  ghost function NamePart(sel: Sel): Text
    requires sel.name.Some?
  {
    if sel.alias.Some? then sel.alias.value + ([58, 32] + sel.name.value) else sel.name.value
  }

  lemma FieldNameBack(sel: Sel, more: Text)
    requires sel.name.Some? && IsName(sel.name.value) && (sel.alias.Some? ==> IsName(sel.alias.value))
    requires more != [] && !IsToken(more[0]) && Head(SkipWhite(more)) != 58
    ensures ReadField(NamePart(sel) + more) == Ok(Sel(sel.alias, sel.name, None, None, [], []), SkipWhite(more))
  {
    if sel.alias.Some? {
      AliasBack(sel.alias.value, sel.name.value, more);
    } else {
      NameBack(sel.name.value, more);
    }
  }

  lemma AliasBack(alias: Text, name: Text, more: Text)
    requires IsName(alias) && IsName(name) && more != [] && !IsToken(more[0])
    ensures ReadField(alias + ([58, 32] + name) + more)
         == Ok(Sel(Some(alias), Some(name), None, None, [], []), SkipWhite(more))
  {
    var tail := [58] + ([32] + (name + more));
    assert alias + ([58, 32] + name) + more == alias + tail;
    NameBack(alias, tail);
    NotWhite(58, [32] + (name + more));
    OneWhite(32, name + more);
    NameBack(name, more);
    hide ReadName;
  }

  lemma FieldText(sel: Sel, depth: nat, rest: Text)
    requires Shaped(sel) && sel.frag.None? && sel.inl.None?
    ensures var b := PrintBody(sel.sels, depth) + ([10] + rest);
            Core(sel, depth) + rest
            == NamePart(sel) + if sel.args == [] then b else [40] + (PrintArgs(sel.args) + ([41] + b))
  {
    hide PrintBody, PrintArgs;
    NameNulFree(sel.name.value);
    if sel.alias.Some? {
      NameNulFree(sel.alias.value);
    }
    HeadText(sel);
    var a, body := NamePart(sel), PrintBody(sel.sels, depth);
    hide NamePart, PrintHead;
    if sel.args == [] {
      PlainShape(a, body, [10], rest);
    } else {
      ArgsShape(a, [40], PrintArgs(sel.args), [41], body, [10], rest);
    }
  }

  lemma PlainShape(a: Text, body: Text, nl: Text, rest: Text)
    ensures a + (body + nl) + rest == a + (body + (nl + rest))
  {
  }

  lemma ArgsShape(a: Text, open: Text, args: Text, close: Text, body: Text, nl: Text, rest: Text)
    ensures a + (open + (args + close)) + (body + nl) + rest
         == a + (open + (args + (close + (body + (nl + rest)))))
  {
  }

  lemma HeadText(sel: Sel)
    requires Shaped(sel) && sel.frag.None? && sel.inl.None?
    ensures PrintHead(sel)
       == if sel.args == [] then NamePart(sel) else NamePart(sel) + ([40] + (PrintArgs(sel.args) + [41]))
  {
    hide PrintArgs;
    NameNulFree(sel.name.value);
    if sel.alias.Some? {
      NameNulFree(sel.alias.value);
    }
  }

  lemma FieldBack(sel: Sel, depth: nat, rest: Text, last: Byte)
    requires SelReadable(sel) && sel.frag.None? && sel.inl.None? && NoMore(rest)
    requires sel.sels == [] || BodyReads(sel.sels, depth, [10] + rest, last)
    ensures BackTo(ReadSel(Core(sel, depth) + rest, last), NormSel(sel), rest)
  {
    var t := [10] + rest;
    var b := PrintBody(sel.sels, depth) + t;
    OneWhite(10, rest);
    SkipTwice(rest);
    if sel.sels == [] {
      assert b == t;
    } else {
      BodyOpens(sel.sels, depth, t, last);
    }
    FieldText(sel, depth, rest);
    CoreHead(sel, depth, rest);
    var more := if sel.args == [] then b else [40] + (PrintArgs(sel.args) + ([41] + b));
    MoreHead(sel.args, b);
    if sel.args != [] {
      ArgsBack(sel.args, b);
    }
    FieldNameBack(sel, more);
    NotDots(sel, more);
    FieldReads(sel, NamePart(sel) + more, b, t, last);
  }

  lemma MoreHead(args: seq<Arg>, b: Text)
    requires b != [] && !IsToken(b[0]) && Head(SkipWhite(b)) != 58
    ensures var more := if args == [] then b else [40] + (PrintArgs(args) + ([41] + b));
            && more != [] && !IsToken(more[0]) && Head(SkipWhite(more)) != 58
            && (args != [] ==> SkipWhite(more) == more && Head(more) == 40 && more[1..] == PrintArgs(args) + ([41] + b))
  {
    if args != [] {
      NotWhite(40, PrintArgs(args) + ([41] + b));
    }
  }

  lemma NotDots(sel: Sel, more: Text)
    requires sel.name.Some? && IsName(sel.name.value) && (sel.alias.Some? ==> IsName(sel.alias.value))
    ensures !StartsWith(NamePart(sel) + more, [46, 46, 46])
  {
    var s := NamePart(sel) + more;
    assert s[0] == NamePart(sel)[0] && IsToken(s[0]);
    assert |s| >= 3 ==> s[..3][0] == s[0];
  }

  lemma FieldReads(sel: Sel, s: Text, b: Text, t: Text, last: Byte)
    requires sel.frag.None? && sel.inl.None? && SkipWhite(s) == s && !StartsWith(s, [46, 46, 46])
    requires ReadField(s).Ok? && ReadField(s).value == Sel(sel.alias, sel.name, None, None, [], [])
    requires if sel.args == [] then ReadField(s).rest == SkipWhite(b) && Head(ReadField(s).rest) != 40
             else Head(ReadField(s).rest) == 40 && ReadArgs(ReadField(s).rest[1..]) == Ok(NormArgs(sel.args), b)
    requires Head(SkipWhite(b)) != 64
    requires if sel.sels == [] then Head(SkipWhite(b)) != 123 && SkipWhite(b) == SkipWhite(t)
             else Head(SkipWhite(b)) == 123 && ReadSels(SkipWhite(b)[1..], last) == Ok(NormSels(sel.sels), t)
    ensures BackTo(ReadSel(s, last), NormSel(sel), t)
  {
    SkipTwice(b);
    SkipTwice(t);
    hide ReadField, ReadArgs, ReadSels, ReadInline;
  }

  // ----- the round trip

  lemma {:induction false} SelBack(sel: Sel, depth: nat, rest: Text, last: Byte)
    requires SelReadable(sel) && NoMore(rest)
    ensures BackTo(ReadSel(PrintSel(sel, depth) + rest, last), NormSel(sel), rest)
    decreases sel, 0
  {
    CoreText(sel, depth, rest);
    CoreHead(sel, depth, rest);
    ReadSelSkip(PrintSel(sel, depth) + rest, last);
    hide ReadSel, ReadSels, Core, PrintSel, NormSel, PrintHead;
    if sel.frag.Some? {
      SpreadBack(sel, depth, rest, last);
      SpreadNorm(sel);
      SkipTwice(rest);
    } else if sel.inl.Some? {
      if sel.inl.value.sels != [] {
        BodyReadsBack(sel.inl.value.sels, depth, [10] + rest, last);
      }
      InlineBack(sel, depth, rest, last);
    } else {
      if sel.sels != [] {
        BodyReadsBack(sel.sels, depth, [10] + rest, last);
      }
      FieldBack(sel, depth, rest, last);
    }
  }

  lemma SpreadNorm(sel: Sel)
    requires SelReadable(sel) && sel.frag.Some?
    ensures NormSel(sel) == sel
  {
  }

  lemma {:induction false} BodyReadsBack(sels: seq<Sel>, depth: nat, t: Text, last: Byte)
    requires forall k :: 0 <= k < |sels| ==> SelReadable(sels[k])
    ensures BodyReads(sels, depth, t, last)
    decreases sels, 2
  {
    IndentWhite(depth);
    SelsBack(sels, depth + 1, Indent(depth), t, last);
  }

  lemma {:induction false} SelsBack(sels: seq<Sel>, depth: nat, pad: Text, t: Text, last: Byte)
    requires forall k :: 0 <= k < |sels| ==> SelReadable(sels[k])
    requires forall i :: 0 <= i < |pad| ==> IsWhite(pad[i])
    ensures ReadSels(PrintSels(sels, depth) + (pad + ([125] + t)), last) == Ok(NormSels(sels), t)
    decreases sels, 1
  {
    var end := pad + ([125] + t);
    SkipBlanks(pad, [125] + t);
    NotWhite(125, t);
    if sels == [] {
      assert PrintSels(sels, depth) + end == end;
    } else {
      var sel, more := sels[0], PrintSels(sels[1..], depth) + end;
      SelsText(sels, depth, end);
      SelsHead(sels[1..], depth, end);
      SelBack(sel, depth, more, last);
      SelsBack(sels[1..], depth, pad, t, last);
      CoreText(sel, depth, more);
      CoreHead(sel, depth, more);
      SelsStep(PrintSel(sel, depth) + more, NormSel(sel), more, last);
    }
  }

  lemma SelsText(sels: seq<Sel>, depth: nat, end: Text)
    requires sels != []
    ensures PrintSels(sels, depth) + end == PrintSel(sels[0], depth) + (PrintSels(sels[1..], depth) + end)
  {
    hide PrintSel;
    Assoc(PrintSel(sels[0], depth), PrintSels(sels[1..], depth), end);
  }

  /** The selections that follow, or the brace, are not taken for more of the one before. */
  lemma SelsHead(sels: seq<Sel>, depth: nat, end: Text)
    requires forall k :: 0 <= k < |sels| ==> Shaped(sels[k])
    requires Head(SkipWhite(end)) == 125
    ensures var s := PrintSels(sels, depth) + end; NoMore(s) && SkipWhite(s) != []
  {
    hide PrintSel, Core;
    if sels == [] {
      assert PrintSels(sels, depth) + end == end;
    } else {
      SelsText(sels, depth, end);
      var more := PrintSels(sels[1..], depth) + end;
      CoreText(sels[0], depth, more);
      CoreHead(sels[0], depth, more);
    }
  }

  lemma SelsStep(s: Text, sel: Sel, more: Text, last: Byte)
    requires s != [] && Head(SkipWhite(s)) != 125 && SkipWhite(more) != []
    requires BackTo(ReadSel(s, last), sel, more) && ReadSels(more, last).Ok?
    ensures ReadSels(s, last) == Ok([sel] + ReadSels(more, last).value, ReadSels(more, last).rest)
  {
    hide ReadSel;
    ReadSelSkip(s, last);
    var r := ReadSel(s, last).rest;
    assert r != [] by { NonEmpty(r); }
    NonEmpty(more);
    ReadSelsSkip(r, more, last);
  }

  lemma NonEmpty(s: Text)
    ensures s == [] ==> SkipWhite(s) == []
  {
  }

  lemma SpreadText(sel: Sel, depth: nat, rest: Text)
    requires sel.frag.Some? && IsName(sel.frag.value)
    ensures Core(sel, depth) + rest == [46, 46, 46] + (sel.frag.value + ([10] + rest))
  {
    NameNulFree(sel.frag.value);
  }
}
