/** The reader of sdl.c and doc.c: one cursor that every method moves, proved against the functions of SdlParse. */
module SdlReader {
  import opened Bytes
  import opened Wrappers
  import opened SdlText
  import opened Parsing
  import opened SdlParse
  import Json

  /** A place found so many bytes further on. */
  function Behind(n: Option<nat>, k: nat): Option<nat> {
    if n.None? then None else Some(n.value + k)
  }

  /** One byte of the walk to the closing quote. */
  lemma QuoteStep(s: Text, prev: Byte, k: nat)
    ensures s == [] ==> ToQuote(s, prev) == None
    ensures s != [] ==>
              Behind(ToQuote(s, prev), k) ==
                if s[0] == 34 && prev != 92 then Some(k) else Behind(ToQuote(s[1..], s[0]), k + 1)
  {
  }

  class Doc {
    const text: Text
    var cur: nat

    ghost predicate Valid()
      reads this
    {
      cur <= |text|
    }

    constructor (text: Text)
      ensures Valid() && this.text == text && Left() == text
    {
      this.text := text;
      cur := 0;
    }

    /** The text not yet read. */
    function Left(): Text
      requires cur <= |text|
      reads this
    {
      text[cur..]
    }

    /** The byte at the cursor, or the NUL at the end. */
    function Here(): (b: Byte)
      requires cur <= |text|
      reads this
      ensures b == Head(Left())
    {
      if cur < |text| then text[cur] else 0
    }

    method Skip(n: nat)
      requires Valid() && n <= |Left()|
      modifies this`cur
      ensures Valid() && Left() == old(Left())[n..] && cur == old(cur) + n
    {
      cur := cur + n;
    }

    method SkipComments()
      requires Valid()
      modifies this`cur
      ensures Valid() && Left() == SkipComment(old(Left())) && cur >= old(cur)
    {
      while cur < |text| && Here() != 10 && Here() != 13
        invariant Valid() && SkipComment(Left()) == SkipComment(old(Left())) && cur >= old(cur)
        decreases |text| - cur
      {
        Skip(1);
      }
    }

    method SkipSpace()
      requires Valid()
      modifies this`cur
      ensures Valid() && Left() == SkipWhite(old(Left())) && cur >= old(cur)
    {
      while true
        invariant Valid() && SkipWhite(Left()) == SkipWhite(old(Left())) && cur >= old(cur)
        decreases |text| - cur
      {
        while IsWhite(Here())
          invariant Valid() && SkipWhite(Left()) == SkipWhite(old(Left())) && cur >= old(cur)
          decreases |text| - cur
        {
          Skip(1);
        }
        if Here() != 35 {
          return;
        }
        ghost var s := Left();
        SkipComments();
        assert |Left()| < |s|;
      }
    }

    /** agoo_doc_read_token: how far the cursor moved. */
    method ReadToken() returns (n: nat)
      requires Valid()
      modifies this`cur
      ensures Valid() && n == TokenLength(old(Left())) && Left() == old(Left())[n..] && cur == old(cur) + n
    {
      n := 0;
      if IsToken(Here()) && 57 < Here() {
        ghost var s := Left();
        while cur < |text| && IsToken(Here())
          invariant Valid() && n <= |s| && Left() == s[n..] && n + TokenRun(Left()) == TokenRun(s)
          invariant cur == old(cur) + n
          decreases |text| - cur
        {
          Skip(1);
          n := n + 1;
        }
      }
    }

    method ReadNameText() returns (name: Option<Text>)
      requires Valid()
      modifies this`cur
      ensures Valid() && Agrees(ReadName(old(Left())), name, Left())
    {
      ghost var s := Left();
      var start := cur;
      var n := ReadToken();
      if n == 0 || 256 <= n {
        return None;
      }
      assert text[start..cur] == s[..n];
      return Some(text[start..cur]);
    }

    // ----- values

    /** The number, with its sign and its digit loop. */
    method ReadNum() returns (v: Option<Value>)
      requires Valid() && Left() != []
      modifies this`cur
      ensures Valid() && Agrees(ReadNumber(old(Left())), v, Left())
    {
      var neg := Here() == 45;
      if Here() == 45 || Here() == 43 {
        Skip(1);
      }
      ghost var s := Left();
      var i: nat := 0;
      while IsDigit(Here())
        invariant Valid() && ReadDigits(Left(), i) == ReadDigits(s, 0)
        decreases |text| - cur
      {
        i := i * 10 + (Here() as int - 48);
        if Json.INT64_MAX <= i {
          return None;
        }
        Skip(1);
      }
      if Here() == 46 {
        return None;
      }
      return Some(IntValue(i, neg));
    }

    /** The walk to the closing quote; `before` is the byte behind the cursor. */
    method FindQuote(before: Byte) returns (n: Option<nat>)
      requires Valid()
      modifies this`cur
      ensures Valid() && n == ToQuote(old(Left()), before)
      ensures n.Some? ==> Left() == old(Left())[n.value + 1..] && cur == old(cur) + n.value + 1
    {
      hide ToQuote;
      ghost var s := Left();
      var k, prev := 0, before;
      while cur < |text|
        invariant Valid() && k <= |s| && Left() == s[k..] && cur == old(cur) + k
        invariant ToQuote(s, before) == Behind(ToQuote(Left(), prev), k)
        decreases |text| - cur
      {
        QuoteStep(Left(), prev, k);
        if Here() == 34 && prev != 92 {
          Skip(1);
          return Some(k);
        }
        prev := Here();
        Skip(1);
        k := k + 1;
      }
      QuoteStep([], prev, k);
      return None;
    }

    method ReadStr() returns (v: Option<Value>)
      requires Valid() && Left() != [] && Here() == 34
      modifies this`cur
      ensures Valid() && Agrees(ReadString(old(Left())), v, Left())
    {
      Skip(1);
      ghost var body := Left();
      if Here() == 34 {
        Skip(1);
        if Here() == 34 || cur == |text| {
          return None;
        }
        assert body[2..] == text[cur + 1..];
        return Some(Str(CStr(text[cur + 1..])));
      }
      var start := cur;
      var n := FindQuote(text[cur - 1]);
      if n.None? || cur == |text| {
        return None;
      }
      assert text[start..start + n.value] == body[..n.value];
      return Some(Str(CStr(text[start..start + n.value])));
    }

    method ReadVal() returns (v: Option<Value>)
      requires Valid()
      modifies this`cur
      ensures Valid() && Agrees(ReadValue(old(Left())), v, Left())
      decreases |Left()|, 1
    {
      SkipSpace();
      var c := Here();
      if c == 36 {
        v := None;
      } else if c == 34 {
        v := ReadStr();
      } else if c == 45 || c == 43 || IsDigit(c) {
        v := ReadNum();
      } else if c == 91 {
        Skip(1);
        var items := ReadList();
        v := if items.None? then None else Some(List(items.value));
      } else if c == 123 {
        Skip(1);
        var members := ReadObject();
        v := if members.None? then None else Some(Object(members.value));
      } else {
        ghost var s := Left();
        var start := cur;
        var n := ReadToken();
        assert text[start..cur] == s[..n];
        v := Some(if n == 0 then Token(CStr(text[start..])) else TokenValue(text[start..cur]));
      }
    }

    /** The loop over list members.  It gives up where the source would read nothing for ever. */
    method ReadList() returns (r: Option<seq<Value>>)
      requires Valid()
      modifies this`cur
      ensures Valid() && Agrees(ReadItems(old(Left())), r, Left())
      decreases |Left()|, 2
    {
      hide ReadValue;
      var xs: seq<Value> := [];
      ghost var s := Left();
      AfterNone(ReadItems(s));
      while cur < |text|
        invariant Valid() && |Left()| <= |s| && After(xs, ReadItems(Left())) == ReadItems(s)
        decreases |text| - cur
      {
        var before := cur;
        SkipSpace();
        if Here() == 93 {
          Skip(1);
          AfterEmpty(xs, Left());
          return Some(xs);
        }
        var x := ReadVal();
        if x.None? || cur == before {
          return None;
        }
        AfterOne(xs, x.value, ReadItems(Left()));
        xs := xs + [x.value];
      }
      AfterEmpty(xs, Left());
      return Some(xs);
    }

    method ReadObject() returns (r: Option<seq<Member>>)
      requires Valid()
      modifies this`cur
      ensures Valid() && Agrees(ReadMembers(old(Left())), r, Left())
      decreases |Left()|, 2
    {
      hide ReadValue, ReadName;
      var xs: seq<Member> := [];
      ghost var s := Left();
      AfterNone(ReadMembers(s));
      while cur < |text|
        invariant Valid() && |Left()| <= |s| && After(xs, ReadMembers(Left())) == ReadMembers(s)
        decreases |text| - cur
      {
        SkipSpace();
        if Here() == 125 {
          Skip(1);
          AfterEmpty(xs, Left());
          return Some(xs);
        }
        var key := ReadNameText();
        if key.None? || Here() != 58 {
          return None;
        }
        Skip(1);
        var x := ReadVal();
        if x.None? {
          return None;
        }
        AfterOne(xs, Member(key.value, x.value), ReadMembers(Left()));
        xs := xs + [Member(key.value, x.value)];
      }
      AfterEmpty(xs, Left());
      return Some(xs);
    }

    // ----- selections

    /** make_sel_arg, for literal values. */
    method MakeSelArg() returns (arg: Option<Arg>)
      requires Valid()
      modifies this`cur
      ensures Valid() && Agrees(ReadArg(old(Left())), arg, Left())
    {
      hide ReadValue, ReadName;
      SkipSpace();
      var name := ReadNameText();
      if name.None? {
        return None;
      }
      SkipSpace();
      if Here() != 58 {
        return None;
      }
      Skip(1);
      SkipSpace();
      var value := ReadVal();
      if value.None? {
        return None;
      }
      return Some(Arg(name.value, value.value));
    }

    method MakeSelArgs() returns (r: Option<seq<Arg>>)
      requires Valid()
      modifies this`cur
      ensures Valid() && Agrees(ReadArgs(old(Left())), r, Left())
    {
      hide ReadArg;
      var xs: seq<Arg> := [];
      ghost var s := Left();
      AfterNone(ReadArgs(s));
      while cur < |text|
        invariant Valid() && |Left()| <= |s| && After(xs, ReadArgs(Left())) == ReadArgs(s)
        decreases |text| - cur
      {
        SkipSpace();
        if Here() == 41 {
          Skip(1);
          AfterEmpty(xs, Left());
          return Some(xs);
        }
        var x := MakeSelArg();
        if x.None? {
          return None;
        }
        AfterOne(xs, x.value, ReadArgs(Left()));
        xs := xs + [x.value];
      }
      AfterEmpty(xs, Left());
      return Some(xs);
    }

    /** The last byte of the document. */
    function Last(): Byte {
      if text == [] then 0 else text[|text| - 1]
    }

    /** An alias or name, a colon and a name. */
    method MakeField() returns (sel: Option<Sel>)
      requires Valid()
      modifies this`cur
      ensures Valid() && Agrees(ReadField(old(Left())), sel, Left())
    {
      hide ReadName;
      var first := ReadNameText();
      if first.None? {
        return None;
      }
      SkipSpace();
      if Here() != 58 {
        return Some(Sel(None, first, None, None, [], []));
      }
      Skip(1);
      SkipSpace();
      var name := ReadNameText();
      if name.None? {
        return None;
      }
      SkipSpace();
      return Some(Sel(first, name, None, None, [], []));
    }

    method MakeSel() returns (sel: Option<Sel>)
      requires Valid()
      modifies this`cur
      ensures Valid() && Agrees(ReadSel(old(Left()), Last()), sel, Left())
      decreases |Left()|, 2
    {
      hide ReadField, ReadInline, SelArgs, SelBody, Last;
      SkipSpace();
      if StartsWith(Left(), [46, 46, 46]) {
        sel := MakeSelInline();
      } else {
        sel := MakeField();
      }
      if sel.None? {
        return None;
      }
      var args := MaybeArgs(sel.value);
      if args.None? {
        return None;
      }
      sel := MaybeSels(sel.value.(args := args.value));
    }

    method MaybeArgs(sel: Sel) returns (r: Option<seq<Arg>>)
      requires Valid()
      modifies this`cur
      ensures Valid() && Agrees(SelArgs(sel, old(Left())), r, Left())
    {
      hide ReadArgs;
      if sel.frag.None? && Here() == 40 {
        Skip(1);
        r := MakeSelArgs();
      } else {
        r := Some([]);
      }
    }

    method MaybeSels(sel: Sel) returns (r: Option<Sel>)
      requires Valid()
      modifies this`cur
      ensures Valid() && Agrees(SelBody(sel, old(Left()), Last()), r, Left())
      decreases |Left()|, 4
    {
      hide ReadSels, Last;
      SkipSpace();
      if Here() == 64 {
        return None;
      }
      if sel.frag.None? && Here() == 123 {
        Skip(1);
        var sels := MakeSels();
        return if sels.None? then None else Some(sel.(sels := sels.value));
      }
      return Some(sel);
    }

    method MakeSelInline() returns (sel: Option<Sel>)
      requires Valid() && StartsWith(Left(), [46, 46, 46])
      modifies this`cur
      ensures Valid() && Agrees(ReadInline(old(Left()), Last()), sel, Left())
      decreases |Left()|, 1
    {
      hide ReadName, InlineBody, Last;
      Skip(3);
      SkipSpace();
      if StartsWith(Left(), [111, 110]) {
        Skip(2);
        SkipSpace();
        var on := ReadNameText();
        if on.None? {
          return None;
        }
        sel := MakeInlineBody(on.value);
      } else if Here() == 64 {
        return None;
      } else {
        var name := ReadNameText();
        return if name.None? then None else Some(Sel(None, None, name, None, [], []));
      }
    }

    method MakeInlineBody(on: Text) returns (sel: Option<Sel>)
      requires Valid()
      modifies this`cur
      ensures Valid() && Agrees(InlineBody(on, old(Left()), Last()), sel, Left())
      decreases |Left()|, 4
    {
      hide ReadSels, Last;
      SkipSpace();
      if Here() == 64 {
        return None;
      }
      if Here() == 123 {
        Skip(1);
        var sels := MakeSels();
        return if sels.None? then None else Some(Sel(None, None, None, Some(Inline(on, sels.value)), [], []));
      }
      return Some(Sel(None, None, None, Some(Inline(on, [])), [], []));
    }

    /** The loop over the selections of a set, and the test for its brace at the end of the document. */
    method MakeSels() returns (r: Option<seq<Sel>>)
      requires Valid()
      modifies this`cur
      ensures Valid() && Agrees(ReadSels(old(Left()), Last()), r, Left())
      decreases |Left()|, 3
    {
      hide ReadSel;
      var xs: seq<Sel> := [];
      ghost var s := Left();
      AfterNone(ReadSels(s, Last()));
      while cur < |text|
        invariant Valid() && |Left()| <= |s| && After(xs, ReadSels(Left(), Last())) == ReadSels(s, Last())
        decreases |text| - cur
      {
        SkipSpace();
        if Here() == 125 {
          Skip(1);
          AfterEmpty(xs, Left());
          return Some(xs);
        }
        var x := MakeSel();
        if x.None? {
          return None;
        }
        AfterOne(xs, x.value, ReadSels(Left(), Last()));
        xs := xs + [x.value];
      }
      AfterEmpty(xs, Left());
      return if Last() == 125 then Some(xs) else None;
    }
  }
}
