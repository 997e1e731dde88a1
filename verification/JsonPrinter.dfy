/** The JSON printer of gqlvalue.c, which appends to a text as it walks the value. */
module JsonPrinter {
  import opened Bytes
  import opened Json
  import TextBuffer

  /** Appends with the length the caller gives. */
  method Put(text: TextBuffer.Buffer, s: Text)
    requires text.Valid() && s != []
    modifies text, text.text
    ensures text.Valid() && (text.text == old(text.text) || fresh(text.text))
    ensures text.Contents() == old(text.Contents()) + s
  {
    text.Append(s, |s|);
    assert s[..|s|] == s;
  }

  method ValueJson(text: TextBuffer.Buffer, v: Value, indent: int, depth: nat)
    requires text.Valid() && Sound(v) && Fits(v, indent, depth)
    modifies text, text.text
    ensures text.Valid() && (text.text == old(text.text) || fresh(text.text))
    ensures text.Contents() == old(text.Contents()) + Print(v, indent, depth)
    decreases v, 2
  {
    match v
    case Null => Put(text, NULL_TEXT);
    case Bool(b) =>
      if b {
        Put(text, TRUE_TEXT);
      } else {
        Put(text, FALSE_TEXT);
      }
    case Int(i) => IntToText(text, i);
    case I64(i) => IntToText(text, i);
    case Str(s) => StringToText(text, s);
    case List(items) => ListToJson(text, v, indent, depth);
    case Object(members) => ObjectToJson(text, v, indent, depth);
  }

  method IntToText(text: TextBuffer.Buffer, i: int)
    requires text.Valid()
    modifies text, text.text
    ensures text.Valid() && (text.text == old(text.text) || fresh(text.text))
    ensures text.Contents() == old(text.Contents()) + Decimal(i)
  {
    var num := Decimal(i);
    Put(text, num);
  }

  /** string_to_text: the quotes, and the C string escaped between them. */
  method StringToText(text: TextBuffer.Buffer, s: Text)
    requires text.Valid()
    modifies text, text.text
    ensures text.Valid() && (text.text == old(text.text) || fresh(text.text))
    ensures text.Contents() == old(text.Contents()) + ([34] + TextBuffer.Escape(CStr(s)) + [34])
  {
    Put(text, [34]);
    text.AppendJson(s, -1);
    Put(text, [34]);
    Gather(old(text.Contents()), [34], TextBuffer.Escape(CStr(s)), [34]);
  }

  lemma Gather<T>(t: seq<T>, a: seq<T>, b: seq<T>, c: seq<T>)
    ensures t + a + b + c == t + (a + b + c)
  {
  }

  /** What the end of a list or object adds: the close padding and the bracket. */
  method Close(text: TextBuffer.Buffer, bracket: Byte, indent: int, depth: nat)
    requires text.Valid() && PadsFit(indent, depth)
    modifies text, text.text
    ensures text.Valid() && (text.text == old(text.text) || fresh(text.text))
    ensures text.Contents() == old(text.Contents()) + (ClosePad(indent, depth) + [bracket])
  {
    if 0 < indent {
      text.Append(Spaces(), Pads(indent, depth).0);
    }
    Put(text, [bracket]);
    Assoc(old(text.Contents()), ClosePad(indent, depth), [bracket]);
  }

  method Open(text: TextBuffer.Buffer, indent: int, depth: nat)
    requires text.Valid() && PadsFit(indent, depth)
    modifies text, text.text
    ensures text.Valid() && (text.text == old(text.text) || fresh(text.text))
    ensures text.Contents() == old(text.Contents()) + OpenPad(indent, depth)
  {
    var i2 := Pads(indent, depth).1;
    if 0 < i2 {
      text.Append(Spaces(), i2);
    }
  }

  method Comma(text: TextBuffer.Buffer, more: bool)
    requires text.Valid()
    modifies text, text.text
    ensures text.Valid() && (text.text == old(text.text) || fresh(text.text))
    ensures text.Contents() == old(text.Contents()) + if more then [44] else []
  {
    if more {
      Put(text, [44]);
    }
  }

  method ListToJson(text: TextBuffer.Buffer, v: Value, indent: int, depth: nat)
    requires v.List?
    requires text.Valid() && Sound(v) && Fits(v, indent, depth)
    modifies text, text.text
    ensures text.Valid() && (text.text == old(text.text) || fresh(text.text))
    ensures text.Contents() == old(text.Contents()) + Print(v, indent, depth)
    decreases v, 1
  {
    Put(text, [91]);
    Items(text, v, indent, depth);
    Close(text, 93, indent, depth);
    Bracketed(old(text.Contents()), 91, PrintItems(v.items, OpenPad(indent, depth), indent, depth + 1),
              ClosePad(indent, depth), 93);
  }

  lemma Bracketed(t: Text, open: Byte, a: Text, pad: Text, close: Byte)
    ensures t + [open] + a + (pad + [close]) == t + ([open] + a + pad + [close])
  {
  }

  /** The loop over the links of a list. */
  method Items(text: TextBuffer.Buffer, v: Value, indent: int, depth: nat)
    requires v.List?
    requires text.Valid() && Sound(v) && Fits(v, indent, depth)
    modifies text, text.text
    ensures text.Valid() && (text.text == old(text.text) || fresh(text.text))
    ensures text.Contents() == old(text.Contents()) + PrintItems(v.items, OpenPad(indent, depth), indent, depth + 1)
    decreases v, 0
  {
    ghost var pad := OpenPad(indent, depth);
    var link := 0;
    while link < |v.items|
      invariant 0 <= link <= |v.items|
      invariant text.Valid() && (text.text == old(text.text) || fresh(text.text))
      invariant text.Contents() + PrintItems(v.items[link..], pad, indent, depth + 1)
             == old(text.Contents()) + PrintItems(v.items, pad, indent, depth + 1)
    {
      ghost var was := text.Contents();
      Item(text, v.items[link], link + 1 < |v.items|, indent, depth);
      NextItem(was, v.items, link, pad, indent, depth + 1);
      link := link + 1;
    }
  }

  method Item(text: TextBuffer.Buffer, item: Value, more: bool, indent: int, depth: nat)
    requires text.Valid() && Sound(item) && Fits(item, indent, depth + 1) && PadsFit(indent, depth)
    modifies text, text.text
    ensures text.Valid() && (text.text == old(text.text) || fresh(text.text))
    ensures text.Contents() == old(text.Contents())
                             + (OpenPad(indent, depth) + Print(item, indent, depth + 1) + if more then [44] else [])
    decreases item, 3
  {
    Open(text, indent, depth);
    ValueJson(text, item, indent, depth + 1);
    Comma(text, more);
    Gather(old(text.Contents()), OpenPad(indent, depth), Print(item, indent, depth + 1), if more then [44] else []);
  }

  /** One turn of the loop moves the first item from what is left to the text. */
  lemma NextItem(t: Text, items: seq<Value>, link: nat, pad: Text, indent: int, depth: nat)
    requires link < |items|
    requires forall k :: 0 <= k < |items| ==> Fits(items[k], indent, depth)
    ensures t + (pad + Print(items[link], indent, depth) + if link + 1 < |items| then [44] else [])
          + PrintItems(items[link + 1..], pad, indent, depth)
         == t + PrintItems(items[link..], pad, indent, depth)
  {
    var rest := items[link..];
    assert rest[0] == items[link] && rest[1..] == items[link + 1..];
    Moved(t, pad + Print(rest[0], indent, depth), if |rest| > 1 then [44] else [],
          PrintItems(rest[1..], pad, indent, depth));
  }

  lemma Moved(t: Text, a: Text, comma: Text, rest: Text)
    ensures t + (a + comma) + rest == t + (a + (comma + rest))
  {
  }

  method ObjectToJson(text: TextBuffer.Buffer, v: Value, indent: int, depth: nat)
    requires v.Object?
    requires text.Valid() && Sound(v) && Fits(v, indent, depth)
    modifies text, text.text
    ensures text.Valid() && (text.text == old(text.text) || fresh(text.text))
    ensures text.Contents() == old(text.Contents()) + Print(v, indent, depth)
    decreases v, 1
  {
    Put(text, [123]);
    Members(text, v, indent, depth);
    Close(text, 125, indent, depth);
    Bracketed(old(text.Contents()), 123, PrintMembers(v.members, OpenPad(indent, depth), indent, depth + 1),
              ClosePad(indent, depth), 125);
  }

  /** The loop over the links of an object. */
  method Members(text: TextBuffer.Buffer, v: Value, indent: int, depth: nat)
    requires v.Object?
    requires text.Valid() && Sound(v) && Fits(v, indent, depth)
    modifies text, text.text
    ensures text.Valid() && (text.text == old(text.text) || fresh(text.text))
    ensures text.Contents() == old(text.Contents()) + PrintMembers(v.members, OpenPad(indent, depth), indent, depth + 1)
    decreases v, 0
  {
    ghost var pad := OpenPad(indent, depth);
    var link := 0;
    while link < |v.members|
      invariant 0 <= link <= |v.members|
      invariant text.Valid() && (text.text == old(text.text) || fresh(text.text))
      invariant text.Contents() + PrintMembers(v.members[link..], pad, indent, depth + 1)
             == old(text.Contents()) + PrintMembers(v.members, pad, indent, depth + 1)
    {
      ghost var was := text.Contents();
      Entry(text, v.members[link], link + 1 < |v.members|, indent, depth);
      NextMember(was, v.members, link, pad, indent, depth + 1);
      link := link + 1;
    }
  }

  method Entry(text: TextBuffer.Buffer, m: Member, more: bool, indent: int, depth: nat)
    requires text.Valid() && Sound(m.value) && Fits(m.value, indent, depth + 1) && PadsFit(indent, depth)
    modifies text, text.text
    ensures text.Valid() && (text.text == old(text.text) || fresh(text.text))
    ensures text.Contents() == old(text.Contents())
                             + (OpenPad(indent, depth) + KeyText(m.key) + Print(m.value, indent, depth + 1)
                                + if more then [44] else [])
    decreases m.value, 3
  {
    Open(text, indent, depth);
    Key(text, m.key);
    ValueJson(text, m.value, indent, depth + 1);
    Comma(text, more);
    Gather4(old(text.Contents()), OpenPad(indent, depth), KeyText(m.key), Print(m.value, indent, depth + 1),
            if more then [44] else []);
  }

  lemma Gather4<T>(t: seq<T>, a: seq<T>, b: seq<T>, c: seq<T>, d: seq<T>)
    ensures t + a + b + c + d == t + (a + b + c + d)
  {
  }

  ghost function KeyText(key: Text): Text {
    [34] + CStr(key) + [34, 58]
  }

  /** The key as it stands, never escaped, and the colon. */
  method Key(text: TextBuffer.Buffer, key: Text)
    requires text.Valid()
    modifies text, text.text
    ensures text.Valid() && (text.text == old(text.text) || fresh(text.text))
    ensures text.Contents() == old(text.Contents()) + KeyText(key)
  {
    Put(text, [34]);
    PutName(text, key);
    Put(text, [34, 58]);
    Gather(old(text.Contents()), [34], CStr(key), [34, 58]);
  }

  method PutName(text: TextBuffer.Buffer, s: Text)
    requires text.Valid()
    modifies text, text.text
    ensures text.Valid() && (text.text == old(text.text) || fresh(text.text))
    ensures text.Contents() == old(text.Contents()) + CStr(s)
  {
    text.Append(s, -1);
  }

  lemma NextMember(t: Text, ms: seq<Member>, link: nat, pad: Text, indent: int, depth: nat)
    requires link < |ms|
    requires forall k :: 0 <= k < |ms| ==> Fits(ms[k].value, indent, depth)
    ensures t + (pad + KeyText(ms[link].key) + Print(ms[link].value, indent, depth)
                 + if link + 1 < |ms| then [44] else [])
          + PrintMembers(ms[link + 1..], pad, indent, depth)
         == t + PrintMembers(ms[link..], pad, indent, depth)
  {
    var rest := ms[link..];
    assert rest[0] == ms[link] && rest[1..] == ms[link + 1..];
    MemberText(rest, pad, indent, depth);
    Moved(t, pad + KeyText(rest[0].key) + Print(rest[0].value, indent, depth), if |rest| > 1 then [44] else [],
          PrintMembers(rest[1..], pad, indent, depth));
  }

  lemma MemberText(rest: seq<Member>, pad: Text, indent: int, depth: nat)
    requires rest != []
    requires forall k :: 0 <= k < |rest| ==> Fits(rest[k].value, indent, depth)
    ensures PrintMembers(rest, pad, indent, depth)
         == pad + KeyText(rest[0].key) + Print(rest[0].value, indent, depth)
          + ((if |rest| > 1 then [44] else []) + PrintMembers(rest[1..], pad, indent, depth))
  {
    Gather(pad, [34], CStr(rest[0].key), [34, 58]);
  }
}
