/** The SDL printers of graphql.c and gqlvalue.c, which append to a text as they walk the selection. */
module SdlPrinter {
  import opened Bytes
  import opened SdlText
  import Json
  import JsonPrinter
  import TextBuffer

  lemma Gather<T>(t: seq<T>, a: seq<T>, b: seq<T>, c: seq<T>)
    ensures t + a + b + c == t + (a + (b + c))
  {
  }

  lemma Gather4<T>(t: seq<T>, a: seq<T>, b: seq<T>, c: seq<T>, d: seq<T>)
    ensures t + a + b + c + d == t + (a + (b + (c + d)))
  {
  }

  lemma Moved(t: Text, a: Text, rest: Text)
    ensures t + a + rest == t + (a + rest)
  {
  }

  // ----- values

  method ValueSdl(text: TextBuffer.Buffer, v: Value)
    requires text.Valid()
    modifies text, text.text
    ensures text.Valid() && (text.text == old(text.text) || fresh(text.text))
    ensures text.Contents() == old(text.Contents()) + PrintValue(v)
    decreases v, 2
  {
    match v
    case Null => JsonPrinter.Put(text, Json.NULL_TEXT);
    case Bool(b) => JsonPrinter.Put(text, if b then Json.TRUE_TEXT else Json.FALSE_TEXT);
    case Int(i) => JsonPrinter.IntToText(text, i);
    case I64(i) => JsonPrinter.IntToText(text, i);
    case Str(s) => JsonPrinter.StringToText(text, s);
    case Token(s) => text.AppendJson(s, -1);
    case List(items) => ListToSdl(text, v);
    case Object(members) => ObjectToSdl(text, v);
  }

  method ListToSdl(text: TextBuffer.Buffer, v: Value)
    requires text.Valid() && v.List?
    modifies text, text.text
    ensures text.Valid() && (text.text == old(text.text) || fresh(text.text))
    ensures text.Contents() == old(text.Contents()) + PrintValue(v)
    decreases v, 1
  {
    JsonPrinter.Put(text, [91]);
    Items(text, v);
    JsonPrinter.Put(text, [93]);
    JsonPrinter.Gather(old(text.Contents()), [91], PrintItems(v.items), [93]);
  }

  method Items(text: TextBuffer.Buffer, v: Value)
    requires text.Valid() && v.List?
    modifies text, text.text
    ensures text.Valid() && (text.text == old(text.text) || fresh(text.text))
    ensures text.Contents() == old(text.Contents()) + PrintItems(v.items)
    decreases v, 0
  {
    var link := 0;
    while link < |v.items|
      invariant 0 <= link <= |v.items|
      invariant text.Valid() && (text.text == old(text.text) || fresh(text.text))
      invariant text.Contents() + PrintItems(v.items[link..]) == old(text.Contents()) + PrintItems(v.items)
    {
      ghost var was := text.Contents();
      ValueSdl(text, v.items[link]);
      JsonPrinter.Comma(text, link + 1 < |v.items|);
      NextItem(was, v.items, link);
      link := link + 1;
    }
  }

  lemma NextItem(t: Text, items: seq<Value>, link: nat)
    requires link < |items|
    ensures t + PrintValue(items[link]) + (if link + 1 < |items| then [44] else []) + PrintItems(items[link + 1..])
         == t + PrintItems(items[link..])
  {
    hide PrintValue;
    var rest := items[link..];
    assert rest[0] == items[link] && rest[1..] == items[link + 1..];
    Gather(t, PrintValue(rest[0]), if |rest| > 1 then [44] else [], PrintItems(rest[1..]));
  }

  method ObjectToSdl(text: TextBuffer.Buffer, v: Value)
    requires text.Valid() && v.Object?
    modifies text, text.text
    ensures text.Valid() && (text.text == old(text.text) || fresh(text.text))
    ensures text.Contents() == old(text.Contents()) + PrintValue(v)
    decreases v, 1
  {
    JsonPrinter.Put(text, [123]);
    Members(text, v);
    JsonPrinter.Put(text, [125]);
    JsonPrinter.Gather(old(text.Contents()), [123], PrintMembers(v.members), [125]);
  }

  method Members(text: TextBuffer.Buffer, v: Value)
    requires text.Valid() && v.Object?
    modifies text, text.text
    ensures text.Valid() && (text.text == old(text.text) || fresh(text.text))
    ensures text.Contents() == old(text.Contents()) + PrintMembers(v.members)
    decreases v, 0
  {
    var link := 0;
    while link < |v.members|
      invariant 0 <= link <= |v.members|
      invariant text.Valid() && (text.text == old(text.text) || fresh(text.text))
      invariant text.Contents() + PrintMembers(v.members[link..]) == old(text.Contents()) + PrintMembers(v.members)
    {
      ghost var was := text.Contents();
      Entry(text, v.members[link], link + 1 < |v.members|);
      NextMember(was, v.members, link);
      link := link + 1;
    }
  }

  method Entry(text: TextBuffer.Buffer, m: Member, more: bool)
    requires text.Valid()
    modifies text, text.text
    ensures text.Valid() && (text.text == old(text.text) || fresh(text.text))
    ensures text.Contents() == old(text.Contents())
                             + (CStr(m.key) + ([58] + (PrintValue(m.value) + if more then [44] else [])))
    decreases m.value, 3
  {
    JsonPrinter.PutName(text, m.key);
    JsonPrinter.Put(text, [58]);
    ValueSdl(text, m.value);
    JsonPrinter.Comma(text, more);
    Gather4(old(text.Contents()), CStr(m.key), [58], PrintValue(m.value), if more then [44] else []);
  }

  lemma NextMember(t: Text, ms: seq<Member>, link: nat)
    requires link < |ms|
    ensures t + (CStr(ms[link].key) + ([58] + (PrintValue(ms[link].value) + if link + 1 < |ms| then [44] else [])))
          + PrintMembers(ms[link + 1..])
         == t + PrintMembers(ms[link..])
  {
    hide PrintValue, CStr;
    var rest := ms[link..];
    assert rest[0] == ms[link] && rest[1..] == ms[link + 1..];
    Entries(t, CStr(rest[0].key), [58], PrintValue(rest[0].value), if |rest| > 1 then [44] else [],
            PrintMembers(rest[1..]));
  }

  lemma Entries(t: Text, a: Text, b: Text, c: Text, d: Text, rest: Text)
    ensures t + (a + (b + (c + d))) + rest == t + (a + (b + (c + (d + rest))))
  {
  }

  // ----- selections

  /** The indentation of sel_sdl: a length of 0 appends all the spaces. */
  method PutIndent(text: TextBuffer.Buffer, depth: nat)
    requires text.Valid()
    modifies text, text.text
    ensures text.Valid() && (text.text == old(text.text) || fresh(text.text))
    ensures text.Contents() == old(text.Contents()) + Indent(depth)
  {
    var indent := depth * 2;
    if 17 <= indent {
      indent := 16;
    }
    text.Append(Spaces(), indent);
  }

  method Args(text: TextBuffer.Buffer, args: seq<Arg>)
    requires text.Valid()
    modifies text, text.text
    ensures text.Valid() && (text.text == old(text.text) || fresh(text.text))
    ensures text.Contents() == old(text.Contents()) + PrintArgs(args)
  {
    var link := 0;
    while link < |args|
      invariant 0 <= link <= |args|
      invariant text.Valid() && (text.text == old(text.text) || fresh(text.text))
      invariant text.Contents() + PrintArgs(args[link..]) == old(text.Contents()) + PrintArgs(args)
    {
      ghost var was := text.Contents();
      OneArg(text, args[link], link + 1 < |args|);
      NextArg(was, args, link);
      link := link + 1;
    }
  }

  method OneArg(text: TextBuffer.Buffer, arg: Arg, more: bool)
    requires text.Valid()
    modifies text, text.text
    ensures text.Valid() && (text.text == old(text.text) || fresh(text.text))
    ensures text.Contents() == old(text.Contents())
                             + (CStr(arg.name) + ([58, 32] + (PrintValue(arg.value) + if more then [44, 32] else [])))
  {
    JsonPrinter.PutName(text, arg.name);
    JsonPrinter.Put(text, [58, 32]);
    ValueSdl(text, arg.value);
    if more {
      JsonPrinter.Put(text, [44, 32]);
    }
    Gather4(old(text.Contents()), CStr(arg.name), [58, 32], PrintValue(arg.value), if more then [44, 32] else []);
  }

  lemma NextArg(t: Text, args: seq<Arg>, link: nat)
    requires link < |args|
    ensures t + (CStr(args[link].name) + ([58, 32]
               + (PrintValue(args[link].value) + if link + 1 < |args| then [44, 32] else [])))
          + PrintArgs(args[link + 1..])
         == t + PrintArgs(args[link..])
  {
    hide PrintValue, CStr;
    var rest := args[link..];
    assert rest[0] == args[link] && rest[1..] == args[link + 1..];
    Entries(t, CStr(rest[0].name), [58, 32], PrintValue(rest[0].value), if |rest| > 1 then [44, 32] else [],
            PrintArgs(rest[1..]));
  }

  /** What a selection starts with: the spread, the type of an inline fragment, or the field with its arguments. */
  method SelHead(text: TextBuffer.Buffer, sel: Sel)
    requires text.Valid()
    modifies text, text.text
    ensures text.Valid() && (text.text == old(text.text) || fresh(text.text))
    ensures text.Contents() == old(text.Contents()) + PrintHead(sel)
  {
    if sel.frag.Some? {
      JsonPrinter.Put(text, [46, 46, 46]);
      JsonPrinter.PutName(text, sel.frag.value);
      Moved(old(text.Contents()), [46, 46, 46], CStr(sel.frag.value));
    } else if sel.inl.Some? {
      JsonPrinter.Put(text, [46, 46, 46, 32, 111, 110, 32]);
      JsonPrinter.PutName(text, sel.inl.value.on);
      Moved(old(text.Contents()), [46, 46, 46, 32, 111, 110, 32], CStr(sel.inl.value.on));
    } else {
      FieldHead(text, sel);
    }
  }

  method FieldHead(text: TextBuffer.Buffer, sel: Sel)
    requires text.Valid() && sel.frag.None? && sel.inl.None?
    modifies text, text.text
    ensures text.Valid() && (text.text == old(text.text) || fresh(text.text))
    ensures text.Contents() == old(text.Contents()) + PrintHead(sel)
  {
    ghost var alias := if sel.alias.Some? then CStr(sel.alias.value) + [58, 32] else [];
    ghost var name := if sel.name.Some? then CStr(sel.name.value) else [];
    AliasPart(text, sel);
    assert text.Contents() == old(text.Contents()) + alias;
    if sel.name.Some? {
      JsonPrinter.PutName(text, sel.name.value);
    }
    assert text.Contents() == old(text.Contents()) + alias + name;
    ArgPart(text, sel.args);
    Gather(old(text.Contents()), alias, name, if sel.args == [] then [] else [40] + (PrintArgs(sel.args) + [41]));
  }

  method AliasPart(text: TextBuffer.Buffer, sel: Sel)
    requires text.Valid()
    modifies text, text.text
    ensures text.Valid() && (text.text == old(text.text) || fresh(text.text))
    ensures text.Contents() == old(text.Contents()) + if sel.alias.Some? then CStr(sel.alias.value) + [58, 32] else []
  {
    if sel.alias.Some? {
      JsonPrinter.PutName(text, sel.alias.value);
      JsonPrinter.Put(text, [58, 32]);
      Moved(old(text.Contents()), CStr(sel.alias.value), [58, 32]);
    }
  }

  method ArgPart(text: TextBuffer.Buffer, args: seq<Arg>)
    requires text.Valid()
    modifies text, text.text
    ensures text.Valid() && (text.text == old(text.text) || fresh(text.text))
    ensures text.Contents() == old(text.Contents()) + if args == [] then [] else [40] + (PrintArgs(args) + [41])
  {
    if args != [] {
      JsonPrinter.Put(text, [40]);
      Args(text, args);
      JsonPrinter.Put(text, [41]);
      Gather(old(text.Contents()), [40], PrintArgs(args), [41]);
    }
  }

  method SelSdl(text: TextBuffer.Buffer, sel: Sel, depth: nat)
    requires text.Valid()
    modifies text, text.text
    ensures text.Valid() && (text.text == old(text.text) || fresh(text.text))
    ensures text.Contents() == old(text.Contents()) + PrintSel(sel, depth)
    decreases sel, 1
  {
    hide PrintHead, PrintBody, Indent;
    ghost var body := if sel.frag.Some? then [] else if sel.inl.Some? then PrintBody(sel.inl.value.sels, depth)
                      else PrintBody(sel.sels, depth);
    PutIndent(text, depth);
    SelHead(text, sel);
    if sel.frag.None? {
      if sel.inl.Some? {
        Body(text, sel.inl.value.sels, depth);
      } else {
        Body(text, sel.sels, depth);
      }
    }
    JsonPrinter.Put(text, [10]);
    Gather4(old(text.Contents()), Indent(depth), PrintHead(sel), body, [10]);
  }

  method Body(text: TextBuffer.Buffer, sels: seq<Sel>, depth: nat)
    requires text.Valid()
    modifies text, text.text
    ensures text.Valid() && (text.text == old(text.text) || fresh(text.text))
    ensures text.Contents() == old(text.Contents()) + PrintBody(sels, depth)
    decreases sels, 3
  {
    hide PrintSels, Indent;
    if sels != [] {
      JsonPrinter.Put(text, [32, 123, 10]);
      Sels(text, sels, depth + 1);
      PutIndent(text, depth);
      JsonPrinter.Put(text, [125]);
      Gather4(old(text.Contents()), [32, 123, 10], PrintSels(sels, depth + 1), Indent(depth), [125]);
    }
  }

  method Sels(text: TextBuffer.Buffer, sels: seq<Sel>, depth: nat)
    requires text.Valid()
    modifies text, text.text
    ensures text.Valid() && (text.text == old(text.text) || fresh(text.text))
    ensures text.Contents() == old(text.Contents()) + PrintSels(sels, depth)
    decreases sels, 2
  {
    var link := 0;
    while link < |sels|
      invariant 0 <= link <= |sels|
      invariant text.Valid() && (text.text == old(text.text) || fresh(text.text))
      invariant text.Contents() + PrintSels(sels[link..], depth) == old(text.Contents()) + PrintSels(sels, depth)
    {
      ghost var was := text.Contents();
      SelSdl(text, sels[link], depth);
      NextSel(was, sels, link, depth);
      link := link + 1;
    }
  }

  lemma NextSel(t: Text, sels: seq<Sel>, link: nat, depth: nat)
    requires link < |sels|
    ensures t + PrintSel(sels[link], depth) + PrintSels(sels[link + 1..], depth) == t + PrintSels(sels[link..], depth)
  {
    hide PrintSel;
    var rest := sels[link..];
    assert rest[0] == sels[link] && rest[1..] == sels[link + 1..];
    Moved(t, PrintSel(rest[0], depth), PrintSels(rest[1..], depth));
  }
}
