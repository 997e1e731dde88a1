/** Exactly which selections come back from their text: one bad leaf anywhere, and the selection does not. */
module SdlExact {
  import opened Bytes
  import opened Wrappers
  import opened SdlText
  import opened Parsing
  import opened SdlParse
  import opened SdlRoundTrip
  import TextBuffer

  // ----- strings

  lemma {:induction false} EscapeNulFree(s: Text)
    requires NulFree(s)
    ensures NulFree(TextBuffer.Escape(s))
    decreases |s|
  {
    if s != [] {
      var s' := s[..|s| - 1];
      assert forall b :: b in s' ==> b in s;
      EscapeNulFree(s');
      assert s[|s| - 1] in s;
    }
  }

  lemma NotPlain(s: Text)
    requires !Plain(s)
    ensures |TextBuffer.Escape(s)| > |s|
  {
    TextBuffer.PlainSize(s);
    var i :| 0 <= i < |s| && TextBuffer.Width(s[i]) != 1;
    assert s[i] in s;
  }

  /** Every quote comes behind a backslash. */
  ghost predicate QuotesEscaped(e: Text) {
    forall i :: 0 <= i < |e| && e[i] == 34 ==> i > 0 && e[i - 1] == 92
  }

  lemma {:induction false} EscapeQuotes(s: Text)
    ensures QuotesEscaped(TextBuffer.Escape(s))
    decreases |s|
  {
    if s != [] {
      EscapeQuotes(s[..|s| - 1]);
      EscapedByte(s[|s| - 1]);
    }
  }

  lemma EscapedByte(b: Byte)
    ensures QuotesEscaped(TextBuffer.EscapeByte(b))
  {
  }

  /** The reader does not find the closing quote inside the escape. */
  lemma {:induction false} QuoteLater(e: Text, k: nat, t: Text)
    requires k < |e| && QuotesEscaped(e)
    ensures var n := ToQuote(e[k..] + t, if k == 0 then 34 else e[k - 1]); n.Some? ==> n.value >= |e| - k
    decreases |e| - k
  {
    var u := e[k..] + t;
    assert u[0] == e[k] && u[1..] == e[k + 1..] + t;
    if k + 1 < |e| {
      QuoteLater(e, k + 1, t);
    }
  }

  lemma LongerText(e: Text, t: Text, n: nat)
    requires NulFree(e) && |e| <= n <= |e + t|
    ensures |CStr((e + t)[..n])| >= |e|
  {
    var u := (e + t)[..n];
    assert forall i :: 0 <= i < |e| ==> u[i] == e[i] && e[i] in e;
  }

  /** A string that needs an escape reads as more than it is, whatever follows. */
  lemma EscapedNotBack(s: Text, rest: Text)
    requires NulFree(s) && !Plain(s)
    ensures var p := ReadValue(PrintValue(Str(s)) + rest); p.Ok? ==> p.value != Str(s)
  {
    var e := TextBuffer.Escape(s);
    NotPlain(s);
    EscapeNulFree(s);
    EscapeQuotes(s);
    assert PrintValue(Str(s)) + rest == [34] + (e + ([34] + rest));
    hide TextBuffer.Escape, PrintValue;
    RawNotBack(s, e, [34] + rest);
  }

  lemma RawNotBack(s: Text, e: Text, t: Text)
    requires NulFree(e) && QuotesEscaped(e) && |e| > |s|
    ensures var p := ReadValue([34] + (e + t)); p.Ok? ==> p.value != Str(s)
  {
    var body := e + t;
    NotWhite(34, body);
    QuoteLater(e, 0, t);
    assert e[0..] == e && body[0] == e[0];
    var n := ToQuote(body, 34);
    if n.Some? {
      LongerText(e, t, n.value);
    }
  }

  /** A string is read back exactly when it prints without an escape; the empty one reads as what comes behind the byte
      that follows it, so only if nothing does. */
  lemma StringExact(s: Text, rest: Text)
    requires NulFree(s) && rest != []
    ensures ReadValue(PrintValue(Str(s)) + rest) == Ok(Str(s), rest)
       <==> if s == [] then rest[0] != 34 && Head(rest[1..]) == 0 else Plain(s)
  {
    if s == [] {
      EmptyString(rest);
    } else if Plain(s) {
      PlainEscape(s);
      PlainStringBack(s, rest);
    } else {
      EscapedNotBack(s, rest);
    }
  }

  lemma EmptyString(rest: Text)
    requires rest != []
    ensures ReadValue(PrintValue(Str([])) + rest) == if rest[0] == 34 then Beyond else Ok(Str(CStr(rest[1..])), rest)
  {
    var body := [34] + rest;
    assert PrintValue(Str([])) + rest == [34] + body;
    NotWhite(34, body);
    assert body[1..] == rest && body[2..] == rest[1..];
  }

  /** A token is read back exactly when it is not spelled like null, true or false. */
  lemma TokenExact(t: Text, rest: Text)
    requires IsTokenText(t) && Follows(rest)
    ensures ReadValue(PrintValue(Token(t)) + rest) == Ok(TokenValue(t), rest)
    ensures TokenValue(t) == Token(t) <==> !IsWord(t)
  {
    TokenPlain(t);
    assert PrintValue(Token(t)) == t;
    hide PrintValue, ReadValue;
    TokenValueBack(t, rest);
  }

  // ----- values

  /** At least two bytes follow, as they do behind every argument. */
  predicate Ends(rest: Text) {
    |rest| >= 2 && rest[0] != 0 && rest[1] != 0
  }

  lemma LeafNotBack(v: Value, rest: Text)
    requires !v.List? && !v.Object?
    requires Sound(v) && !Readable(v) && Follows(rest) && Ends(rest)
    ensures var p := ReadValue(PrintValue(v) + rest); p.Ok? ==> p.value != Norm(v)
  {
    match v {
      case Int(i) => NumberExact(i, rest);
      case I64(i) => NumberExact(i, rest);
      case Str(s) =>
        if s == [] {
          EmptyString(rest);
        } else {
          EscapedNotBack(s, rest);
        }
      case Token(t) =>
        hide PrintValue;
        TokenExact(t, rest);
    }
  }

  /** A value with a bad leaf, however deep, is not read back. */
  lemma {:induction false} ValueNotBack(v: Value, rest: Text)
    requires Sound(v) && !Readable(v) && Follows(rest) && Ends(rest)
    ensures var p := ReadValue(PrintValue(v) + rest); p.Ok? ==> p.value != Norm(v)
    decreases v, 0
  {
    hide PrintValue, PrintItems, PrintMembers, ReadValue, ReadItems, ReadMembers;
    if v.List? {
      ListReads(v.items, rest);
      ItemsNotBack(v.items, rest);
    } else if v.Object? {
      ObjectReads(v.members, rest);
      MembersNotBack(v.members, rest);
    } else {
      LeafNotBack(v, rest);
    }
  }

  lemma Cons<T>(x: T, xs: seq<T>, y: T, ys: seq<T>)
    ensures [x] + xs == [y] + ys <==> x == y && xs == ys
  {
    if [x] + xs == [y] + ys {
      assert ([x] + xs)[0] == ([y] + ys)[0] && ([x] + xs)[1..] == ([y] + ys)[1..];
    }
  }

  lemma ReadsSome(t: Text)
    requires t != [] && SkipWhite(t) == t && StartsValue(t[0]) && ReadValue(t).Ok?
    ensures |ReadValue(t).rest| < |t|
  {
  }

  lemma CommaRead(t: Text)
    requires t != [] && SkipWhite(t) == t && StartsValue(t[0])
    ensures ReadItems([44] + t) == ReadItems(t)
  {
    OneWhite(44, t);
    if ReadValue(t).Ok? {
      ReadsSome(t);
    }
  }

  lemma ItemsRead(s: Text)
    requires s != [] && SkipWhite(s) == s && s[0] != 93 && ReadItems(s).Ok?
    ensures ReadValue(s).Ok? && ReadItems(ReadValue(s).rest).Ok?
    ensures ReadItems(s).value == [ReadValue(s).value] + ReadItems(ReadValue(s).rest).value
  {
  }

  /** The text behind an item, with the items that are left. */
  ghost function ItemsTail(more: seq<Value>, rest: Text): Text {
    if more == [] then [93] + rest else [44] + (PrintItems(more) + ([93] + rest))
  }

  lemma ItemsTailEnds(more: seq<Value>, rest: Text)
    requires (forall k :: 0 <= k < |more| ==> Sound(more[k])) && Ends(rest)
    ensures Follows(ItemsTail(more, rest)) && Ends(ItemsTail(more, rest))
    ensures more != [] ==> ReadItems(ItemsTail(more, rest)) == ReadItems(PrintItems(more) + ([93] + rest))
  {
    if more != [] {
      hide PrintValue, ReadItems;
      var t := PrintItems(more) + ([93] + rest);
      ItemsSplit(more, [93] + rest);
      ValueHead(more[0], if |more| == 1 then [93] + rest else [44] + (PrintItems(more[1..]) + ([93] + rest)));
      CommaRead(t);
      assert ([44] + t)[1] == t[0];
    }
  }

  /** The first turn of the loop over a printed list. */
  lemma ItemsFirst(items: seq<Value>, rest: Text)
    requires items != [] && Sound(items[0])
    ensures
      var p := ReadItems(PrintItems(items) + ([93] + rest));
      var first := ReadValue(PrintValue(items[0]) + ItemsTail(items[1..], rest));
      p.Ok? ==> first.Ok? && ReadItems(first.rest).Ok? && p.value == [first.value] + ReadItems(first.rest).value
  {
    hide PrintValue, ReadItems, ReadValue;
    ItemsSplit(items, [93] + rest);
    ValueHead(items[0], ItemsTail(items[1..], rest));
    var s := PrintValue(items[0]) + ItemsTail(items[1..], rest);
    assert PrintItems(items) + ([93] + rest) == s;
    if ReadItems(s).Ok? {
      ItemsRead(s);
    }
  }

  lemma {:induction false} ItemsNotBack(items: seq<Value>, rest: Text)
    requires forall k :: 0 <= k < |items| ==> Sound(items[k])
    requires exists k :: 0 <= k < |items| && !Readable(items[k])
    requires Ends(rest)
    ensures var p := ReadItems(PrintItems(items) + ([93] + rest)); p.Ok? ==> p.value != NormItems(items)
    decreases items, 1
  {
    hide PrintValue, PrintItems, ReadValue, ReadItems, Readable, Sound, ItemsTail, Norm;
    var more := items[1..];
    ItemsFirst(items, rest);
    ItemsTailEnds(more, rest);
    var first := ReadValue(PrintValue(items[0]) + ItemsTail(more, rest));
    if first.Ok? && ReadItems(first.rest).Ok? {
      Cons(first.value, ReadItems(first.rest).value, Norm(items[0]), NormItems(more));
    }
    if !Readable(items[0]) {
      ValueNotBack(items[0], ItemsTail(more, rest));
    } else {
      ValueBack(items[0], ItemsTail(more, rest));
      var k :| 0 <= k < |items| && !Readable(items[k]);
      assert more[k - 1] == items[k];
      ItemsNotBack(more, rest);
    }
  }

  lemma MembersRead(key: Text, body: Text)
    requires IsName(key) && ReadMembers(key + ([58] + body)).Ok?
    ensures ReadValue(body).Ok? && ReadMembers(ReadValue(body).rest).Ok?
    ensures ReadMembers(key + ([58] + body)).value
         == [Member(key, ReadValue(body).value)] + ReadMembers(ReadValue(body).rest).value
  {
    NameBack(key, [58] + body);
    assert ([58] + body)[1..] == body;
  }

  ghost function MembersTail(more: seq<Member>, rest: Text): Text {
    if more == [] then [125] + rest else [44] + (PrintMembers(more) + ([125] + rest))
  }

  lemma MembersTailEnds(more: seq<Member>, rest: Text)
    requires (more != [] ==> IsName(more[0].key)) && Ends(rest)
    ensures Follows(MembersTail(more, rest)) && Ends(MembersTail(more, rest))
    ensures more != [] ==> ReadMembers(MembersTail(more, rest)) == ReadMembers(PrintMembers(more) + ([125] + rest))
  {
    if more != [] {
      hide PrintValue, ReadMembers;
      var t := PrintMembers(more) + ([125] + rest);
      MembersSplit(more, [125] + rest);
      CommaMembers(t);
      assert ([44] + t)[1] == t[0] == more[0].key[0];
    }
  }

  lemma MembersFirst(members: seq<Member>, rest: Text)
    requires members != [] && IsName(members[0].key)
    ensures
      var p := ReadMembers(PrintMembers(members) + ([125] + rest));
      var first := ReadValue(PrintValue(members[0].value) + MembersTail(members[1..], rest));
      p.Ok? ==>
        && first.Ok? && ReadMembers(first.rest).Ok?
        && p.value == [Member(members[0].key, first.value)] + ReadMembers(first.rest).value
  {
    hide PrintValue, ReadMembers, ReadValue;
    MembersSplit(members, [125] + rest);
    var v := PrintValue(members[0].value) + MembersTail(members[1..], rest);
    assert PrintMembers(members) + ([125] + rest) == members[0].key + ([58] + v);
    if ReadMembers(members[0].key + ([58] + v)).Ok? {
      MembersRead(members[0].key, v);
    }
  }

  lemma {:induction false} MembersNotBack(members: seq<Member>, rest: Text)
    requires forall k :: 0 <= k < |members| ==> IsName(members[k].key) && Sound(members[k].value)
    requires exists k :: 0 <= k < |members| && !Readable(members[k].value)
    requires Ends(rest)
    ensures var p := ReadMembers(PrintMembers(members) + ([125] + rest)); p.Ok? ==> p.value != NormMembers(members)
    decreases members, 1
  {
    hide PrintValue, PrintMembers, ReadValue, ReadMembers, Readable, Sound, MembersTail, Norm;
    var more := members[1..];
    MembersFirst(members, rest);
    MembersTailEnds(more, rest);
    var m := members[0];
    var first := ReadValue(PrintValue(m.value) + MembersTail(more, rest));
    if first.Ok? && ReadMembers(first.rest).Ok? {
      Cons(Member(m.key, first.value), ReadMembers(first.rest).value, Member(m.key, Norm(m.value)), NormMembers(more));
    }
    if !Readable(members[0].value) {
      ValueNotBack(members[0].value, MembersTail(more, rest));
    } else {
      ValueBack(members[0].value, MembersTail(more, rest));
      var k :| 0 <= k < |members| && !Readable(members[k].value);
      assert more[k - 1] == members[k];
      MembersNotBack(more, rest);
    }
  }

  /** A value with two bytes behind it comes back, and they are left, if and only if it is readable. */
  lemma ValueExact(v: Value, rest: Text)
    requires Sound(v) && Follows(rest) && Ends(rest)
    ensures ReadValue(PrintValue(v) + rest) == Ok(Norm(v), rest) <==> Readable(v)
  {
    if Readable(v) {
      ValueBack(v, rest);
    } else {
      ValueNotBack(v, rest);
    }
  }

  // ----- arguments

  lemma ArgsRead(name: Text, body: Text)
    requires IsName(name) && body != [] && body[0] == 58 && ReadArgs(name + body).Ok?
    ensures ReadArg(name + body).Ok? && ReadArgs(ReadArg(name + body).rest).Ok?
    ensures ReadArgs(name + body).value == [ReadArg(name + body).value] + ReadArgs(ReadArg(name + body).rest).value
  {
    NameBack(name, body);
    hide ReadArg;
  }

  ghost function ArgsTail(more: seq<Arg>, b: Text): Text {
    if more == [] then [41] + b else [44, 32] + (PrintArgs(more) + ([41] + b))
  }

  lemma ArgsTailEnds(more: seq<Arg>, b: Text)
    requires b != [] && b[0] != 0
    ensures Follows(ArgsTail(more, b)) && Ends(ArgsTail(more, b))
    ensures more != [] ==> ReadArgs(ArgsTail(more, b)) == ReadArgs(PrintArgs(more) + ([41] + b))
  {
    if more != [] {
      hide PrintArgs, ReadArgs;
      CommaArgs(PrintArgs(more) + ([41] + b));
    }
  }

  lemma ArgsFirst(args: seq<Arg>, b: Text)
    requires args != [] && IsName(args[0].name) && Sound(args[0].value)
    ensures
      var p := ReadArgs(PrintArgs(args) + ([41] + b));
      var first := ReadValue(PrintValue(args[0].value) + ArgsTail(args[1..], b));
      p.Ok? ==>
        && first.Ok? && ReadArgs(first.rest).Ok?
        && p.value == [Arg(args[0].name, first.value)] + ReadArgs(first.rest).value
  {
    hide PrintValue, PrintArgs, ReadArgs, ReadArg, ReadValue;
    ArgsSplit(args, [41] + b);
    ValueHead(args[0].value, ArgsTail(args[1..], b));
    var v := PrintValue(args[0].value) + ArgsTail(args[1..], b);
    assert PrintArgs(args) + ([41] + b) == args[0].name + ([58, 32] + v);
    ArgReads(args[0].name, v);
    if ReadArgs(args[0].name + ([58, 32] + v)).Ok? {
      ArgsRead(args[0].name, [58, 32] + v);
    }
  }

  lemma {:induction false} ArgsNotBack(args: seq<Arg>, b: Text)
    requires ArgsSound(args) && !ArgsReadable(args) && b != [] && b[0] != 0
    ensures var p := ReadArgs(PrintArgs(args) + ([41] + b)); p.Ok? ==> p.value != NormArgs(args)
    decreases |args|
  {
    hide PrintValue, PrintArgs, ReadValue, ReadArgs, Readable, Sound, ArgsTail, Norm;
    var more := args[1..];
    var k :| 0 <= k < |args| && !Readable(args[k].value);
    ArgsFirst(args, b);
    ArgsTailEnds(more, b);
    var arg := args[0];
    var first := ReadValue(PrintValue(arg.value) + ArgsTail(more, b));
    if first.Ok? && ReadArgs(first.rest).Ok? {
      Cons(Arg(arg.name, first.value), ReadArgs(first.rest).value, Arg(arg.name, Norm(arg.value)), NormArgs(more));
    }
    if !Readable(args[0].value) {
      ValueNotBack(args[0].value, ArgsTail(more, b));
    } else {
      ValueBack(args[0].value, ArgsTail(more, b));
      assert more[k - 1] == args[k];
      ArgsNotBack(more, b);
    }
  }

  // ----- selections

  /** What is read of a body is not what was printed. */
  ghost predicate BodyFails(sels: seq<Sel>, depth: nat, t: Text, last: Byte) {
    var p := ReadSels(PrintSels(sels, depth + 1) + (Indent(depth) + ([125] + t)), last);
    p.Ok? ==> p.value != NormSels(sels)
  }

  /** It is read as an inline fragment, or not at all. */
  lemma OnSpread(name: Text, t: Text, last: Byte)
    requires IsName(name) && StartsWith(name, ON) && !IsToken(Head(t))
    ensures var p := ReadSel([46, 46, 46] + (name + t), last); p.Ok? ==> p.value.frag == None
  {
    hide SelBody, SelArgs, InlineBody;
    DotsInline(name + t, last);
    NameBack(name, t);
    assert (name + t)[..2] == name[..2];
  }

  lemma SpreadNotBack(sel: Sel, depth: nat, rest: Text, last: Byte)
    requires Shaped(sel) && sel.frag.Some? && StartsWith(sel.frag.value, ON)
    ensures var p := ReadSel(Core(sel, depth) + rest, last); p.Ok? ==> p.value != NormSel(sel)
  {
    SpreadText(sel, depth, rest);
    hide Core;
    OnSpread(sel.frag.value, [10] + rest, last);
  }

  /** What SelArgs and SelBody do to a selection they are given. */
  lemma BodyKeeps(sel: Sel, s: Text, last: Byte)
    requires SelBody(sel, s, last).Ok?
    ensures var sel' := SelBody(sel, s, last).value; sel'.inl == sel.inl && sel'.args == sel.args
    ensures sel.frag.None? && Head(SkipWhite(s)) == 123 ==>
              var p := ReadSels(SkipWhite(s)[1..], last); p.Ok? && SelBody(sel, s, last).value.sels == p.value
  {
  }

  lemma InlineNotBack(sel: Sel, depth: nat, rest: Text, last: Byte)
    requires Shaped(sel) && sel.frag.None? && sel.inl.Some? && sel.inl.value.sels != []
    requires BodyFails(sel.inl.value.sels, depth, [10] + rest, last)
    ensures var p := ReadSel(Core(sel, depth) + rest, last); p.Ok? ==> p.value != NormSel(sel)
  {
    var on, sels := sel.inl.value.on, sel.inl.value.sels;
    var t := [10] + rest;
    var b := PrintBody(sels, depth) + t;
    OnText(sel, depth, rest);
    BodyOpens(sels, depth, t, last);
    OnBack(on, b, last);
    var u := [32, 111, 110, 32] + (on + b);
    DotsInline(u, last);
    var s := [46, 46, 46] + u;
    hide Core, PrintBody, ReadSels, ReadInline;
    if ReadSel(s, last).Ok? {
      InlineRead(s, last);
      var p := InlineBody(on, b, last);
      assert p.Ok? && p.value.inl.Some? && p.value.inl.value.sels != NormSels(sels);
    }
  }

  lemma InlineRead(s: Text, last: Byte)
    requires SkipWhite(s) == s && StartsWith(s, [46, 46, 46]) && ReadSel(s, last).Ok?
    ensures ReadInline(s, last).Ok? && ReadSel(s, last).value.inl == ReadInline(s, last).value.inl
  {
    hide ReadInline, SelBody, SelArgs;
    var p := ReadInline(s, last);
    var args := SelArgs(p.value, p.rest);
    BodyKeeps(p.value.(args := args.value), args.rest, last);
  }

  /** The parts of a printed field, as make_sel comes to them. */
  lemma FieldRead(s: Text, last: Byte)
    requires SkipWhite(s) == s && !StartsWith(s, [46, 46, 46]) && ReadField(s).Ok? && ReadSel(s, last).Ok?
    requires ReadField(s).value.frag.None?
    ensures
      var p := ReadField(s);
      var args := SelArgs(p.value, p.rest);
      && args.Ok? && ReadSel(s, last).value.args == args.value
      && (Head(SkipWhite(args.rest)) == 123 ==>
            var q := ReadSels(SkipWhite(args.rest)[1..], last); q.Ok? && ReadSel(s, last).value.sels == q.value)
  {
    hide ReadField, ReadInline, SelBody, SelArgs, ReadSels;
    var p := ReadField(s);
    var args := SelArgs(p.value, p.rest);
    BodyKeeps(p.value.(args := args.value), args.rest, last);
  }

  /** A printed field: what is read of its name, and where its arguments and its body are. */
  ghost predicate FieldIs(sel: Sel, depth: nat, rest: Text, s: Text, b: Text) {
    && s == Core(sel, depth) + rest && b == PrintBody(sel.sels, depth) + ([10] + rest) && b != [] && b[0] != 0
    && SkipWhite(s) == s && !StartsWith(s, [46, 46, 46])
    && var p := ReadField(s);
       && p.Ok? && p.value == Sel(sel.alias, sel.name, None, None, [], [])
       && SelArgs(p.value, p.rest)
          == (if sel.args == [] then Ok([], p.rest) else ReadArgs(PrintArgs(sel.args) + ([41] + b)))
       && (sel.args == [] ==> p.rest == SkipWhite(b))
  }

  lemma FieldOpens(sel: Sel, depth: nat, rest: Text) returns (s: Text, b: Text)
    requires Shaped(sel) && sel.frag.None? && sel.inl.None? && NoMore(rest)
    ensures FieldIs(sel, depth, rest, s, b)
  {
    hide Core, PrintBody, ReadField, NamePart, PrintArgs, ReadArgs;
    b := FieldEnd(sel, depth, rest);
    FieldText(sel, depth, rest);
    CoreHead(sel, depth, rest);
    var more := if sel.args == [] then b else [40] + (PrintArgs(sel.args) + ([41] + b));
    MoreHead(sel.args, b);
    FieldNameBack(sel, more);
    NotDots(sel, more);
    s := NamePart(sel) + more;
  }

  lemma FieldEnd(sel: Sel, depth: nat, rest: Text) returns (b: Text)
    requires NoMore(rest)
    ensures b == PrintBody(sel.sels, depth) + ([10] + rest) && b != [] && b[0] != 0 && !IsToken(b[0])
    ensures var h := Head(SkipWhite(b)); h != 58 && h != 40
  {
    var t := [10] + rest;
    b := PrintBody(sel.sels, depth) + t;
    OneWhite(10, rest);
    if sel.sels == [] {
      assert b == t;
    } else {
      BodyOpens(sel.sels, depth, t, 0);
    }
  }

  lemma FieldArgsNotBack(sel: Sel, depth: nat, rest: Text, last: Byte)
    requires Shaped(sel) && ArgsSound(sel.args) && sel.frag.None? && sel.inl.None? && NoMore(rest)
    requires !ArgsReadable(sel.args)
    ensures var p := ReadSel(Core(sel, depth) + rest, last); p.Ok? ==> p.value != NormSel(sel)
  {
    hide Core, PrintBody, ReadField, ReadArgs, SelArgs, ReadSel;
    var s, b := FieldOpens(sel, depth, rest);
    ArgsNotBack(sel.args, b);
    if ReadSel(s, last).Ok? {
      FieldRead(s, last);
    }
  }

  lemma FieldBodyNotBack(sel: Sel, depth: nat, rest: Text, last: Byte)
    requires Shaped(sel) && sel.frag.None? && sel.inl.None? && NoMore(rest)
    requires ArgsReadable(sel.args) && sel.sels != [] && BodyFails(sel.sels, depth, [10] + rest, last)
    ensures var p := ReadSel(Core(sel, depth) + rest, last); p.Ok? ==> p.value != NormSel(sel)
  {
    hide Core, PrintBody, ReadField, ReadArgs, SelArgs, ReadSel, ReadSels;
    var s, b := FieldOpens(sel, depth, rest);
    BodyOpens(sel.sels, depth, [10] + rest, last);
    if sel.args != [] {
      ArgsBack(sel.args, b);
    } else {
      SkipTwice(b);
    }
    if ReadSel(s, last).Ok? {
      FieldRead(s, last);
    }
  }

  // ----- the round trip

  lemma SelsRead(s: Text, last: Byte)
    requires s != [] && Head(SkipWhite(s)) != 125 && ReadSels(s, last).Ok?
    ensures ReadSel(s, last).Ok? && ReadSels(ReadSel(s, last).rest, last).Ok?
    ensures ReadSels(s, last).value == [ReadSel(s, last).value] + ReadSels(ReadSel(s, last).rest, last).value
  {
    ReadSelSkip(s, last);
    hide ReadSel;
  }

  /** The first turn of the loop over printed selections. */
  lemma SelsFirst(sel: Sel, depth: nat, more: Text, last: Byte)
    requires Shaped(sel)
    ensures
      var s := PrintSel(sel, depth) + more;
      var p, first := ReadSels(s, last), ReadSel(s, last);
      p.Ok? ==>
        && first.Ok? && ReadSels(first.rest, last).Ok?
        && p.value == [first.value] + ReadSels(first.rest, last).value
  {
    hide ReadSel, ReadSels, Core, PrintSel;
    CoreText(sel, depth, more);
    CoreHead(sel, depth, more);
    var s := PrintSel(sel, depth) + more;
    NonEmpty(s);
    if ReadSels(s, last).Ok? {
      SelsRead(s, last);
    }
  }

  /** What is left of a selection that came back reads like what follows it. */
  lemma RestReads(p: Parse<Sel>, sel: Sel, more: Text, last: Byte)
    requires BackTo(p, sel, more) && SkipWhite(more) != []
    ensures ReadSels(p.rest, last) == ReadSels(more, last)
  {
    NonEmpty(p.rest);
    NonEmpty(more);
    ReadSelsSkip(p.rest, more, last);
  }

  /** A selection with a bad leaf, however deep, is not read back. */
  lemma {:induction false} SelNotBack(sel: Sel, depth: nat, rest: Text, last: Byte)
    requires SelSound(sel) && !SelReadable(sel) && NoMore(rest)
    ensures var p := ReadSel(PrintSel(sel, depth) + rest, last); p.Ok? ==> p.value != NormSel(sel)
    decreases sel, 0
  {
    CoreText(sel, depth, rest);
    ReadSelSkip(PrintSel(sel, depth) + rest, last);
    ReadSelSkip(Core(sel, depth) + rest, last);
    hide ReadSel, ReadSels, Core, PrintSel, NormSel, PrintHead;
    if sel.frag.Some? {
      SpreadNotBack(sel, depth, rest, last);
    } else if sel.inl.Some? {
      BodyNotBack(sel.inl.value.sels, depth, [10] + rest, last);
      InlineNotBack(sel, depth, rest, last);
    } else {
      if ArgsReadable(sel.args) {
        BodyNotBack(sel.sels, depth, [10] + rest, last);
        FieldBodyNotBack(sel, depth, rest, last);
      } else {
        FieldArgsNotBack(sel, depth, rest, last);
      }
    }
  }

  lemma {:induction false} BodyNotBack(sels: seq<Sel>, depth: nat, t: Text, last: Byte)
    requires forall k :: 0 <= k < |sels| ==> SelSound(sels[k])
    requires exists k :: 0 <= k < |sels| && !SelReadable(sels[k])
    ensures BodyFails(sels, depth, t, last)
    decreases sels, 2
  {
    IndentWhite(depth);
    SelsNotBack(sels, depth + 1, Indent(depth), t, last);
  }

  lemma {:induction false} SelsNotBack(sels: seq<Sel>, depth: nat, pad: Text, t: Text, last: Byte)
    requires forall k :: 0 <= k < |sels| ==> SelSound(sels[k])
    requires exists k :: 0 <= k < |sels| && !SelReadable(sels[k])
    requires forall i :: 0 <= i < |pad| ==> IsWhite(pad[i])
    ensures var p := ReadSels(PrintSels(sels, depth) + (pad + ([125] + t)), last); p.Ok? ==> p.value != NormSels(sels)
    decreases sels, 1
  {
    var end := pad + ([125] + t);
    SkipBlanks(pad, [125] + t);
    NotWhite(125, t);
    var sel, more := sels[0], PrintSels(sels[1..], depth) + end;
    assert forall k :: 0 <= k < |sels| ==> Shaped(sels[k]);
    hide SelSound, SelReadable, Shaped, PrintSel, ReadSel, ReadSels, NormSel;
    SelsText(sels, depth, end);
    SelsHead(sels[1..], depth, end);
    SelsFirst(sel, depth, more, last);
    hide PrintSels;
    var first := ReadSel(PrintSel(sel, depth) + more, last);
    if first.Ok? && ReadSels(first.rest, last).Ok? {
      Cons(first.value, ReadSels(first.rest, last).value, NormSel(sel), NormSels(sels[1..]));
    }
    if !SelReadable(sel) {
      SelNotBack(sel, depth, more, last);
    } else {
      SelBack(sel, depth, more, last);
      RestReads(first, NormSel(sel), more, last);
      var k :| 0 <= k < |sels| && !SelReadable(sels[k]);
      assert sels[1..][k - 1] == sels[k];
      SelsNotBack(sels[1..], depth, pad, t, last);
    }
  }

  /** At any depth, with more selections, a brace or nothing behind it, a printed selection comes back, integers by
      their size, and what follows is left, if and only if it is readable. */
  lemma SelExact(sel: Sel, depth: nat, rest: Text, last: Byte)
    requires SelSound(sel) && NoMore(rest)
    ensures BackTo(ReadSel(PrintSel(sel, depth) + rest, last), NormSel(sel), rest) <==> SelReadable(sel)
  {
    if SelReadable(sel) {
      SelBack(sel, depth, rest, last);
    } else {
      SelNotBack(sel, depth, rest, last);
    }
  }

  /** Reading the printed text of a selection gives it back, integers by their size, and stops at its end, if and only
      if nothing in it, however deep, is an integer of INT64_MAX or more in size, an empty string or one with an
      escape, a token spelled like a word, or a spread of a name that starts with "on". */
  lemma RoundTrip(sel: Sel, depth: nat, last: Byte)
    requires SelSound(sel)
    ensures var p := ReadSel(PrintSel(sel, depth), last);
            (p.Ok? && p.value == NormSel(sel) && SkipWhite(p.rest) == []) <==> SelReadable(sel)
  {
    SelExact(sel, depth, [], last);
    assert PrintSel(sel, depth) + [] == PrintSel(sel, depth);
  }

  /** A spread of a name that starts with "on" never comes back as a spread of it. */
  lemma SpreadExact(name: Text, depth: nat, rest: Text, last: Byte)
    requires IsName(name) && NoMore(rest)
    ensures var sel := Sel(None, None, Some(name), None, [], []);
            BackTo(ReadSel(PrintSel(sel, depth) + rest, last), sel, rest) <==> !StartsWith(name, ON)
  {
    var sel := Sel(None, None, Some(name), None, [], []);
    SelExact(sel, depth, rest, last);
  }
}
