/** GraphQL selections and the text the SDL printers write for them (graphql.c, gqlvalue.c). */
module SdlText {
  import opened Bytes
  import opened Wrappers
  import Json
  import TextBuffer

  /** A literal argument value. */
  datatype Value =
    | Null
    | Bool(b: bool)
    | Int(i: int)
    | I64(i: int)
    | Str(s: Text)
    | Token(s: Text)
    | List(items: seq<Value>)
    | Object(members: seq<Member>)

  datatype Member = Member(key: Text, value: Value)

  datatype Arg = Arg(name: Text, value: Value)

  datatype Inline = Inline(on: Text, sels: seq<Sel>)

  /** A selection: a spread names a fragment, an inline fragment has a type, a field has a name. */
  datatype Sel = Sel(alias: Option<Text>, name: Option<Text>, frag: Option<Text>, inl: Option<Inline>,
                     args: seq<Arg>, sels: seq<Sel>)

  // ----- values

  ghost function PrintValue(v: Value): Text
    decreases v, 0
  {
    match v
    case Null => Json.NULL_TEXT
    case Bool(b) => if b then Json.TRUE_TEXT else Json.FALSE_TEXT
    case Int(i) => Json.Decimal(i)
    case I64(i) => Json.Decimal(i)
    case Str(s) => [34] + TextBuffer.Escape(CStr(s)) + [34]
    case Token(s) => TextBuffer.Escape(CStr(s))
    case List(items) => [91] + PrintItems(items) + [93]
    case Object(members) => [123] + PrintMembers(members) + [125]
  }

  ghost function PrintItems(items: seq<Value>): Text
    decreases items, 1
  {
    if items == [] then []
    else PrintValue(items[0]) + (if |items| == 1 then [] else [44] + PrintItems(items[1..]))
  }

  ghost function PrintMembers(members: seq<Member>): Text
    decreases members, 1
  {
    if members == [] then []
    else
      CStr(members[0].key) + ([58] + (PrintValue(members[0].value)
      + (if |members| == 1 then [] else [44] + PrintMembers(members[1..]))))
  }

  // ----- selections

  /** The `spaces` of graphql.c. */
  function Spaces(): Text {
    [32, 32, 32, 32, 32, 32, 32, 32, 32, 32, 32, 32, 32, 32, 32, 32]
  }

  /** The indentation; at depth 0 the length 0 means all of `spaces`. */
  function Indent(depth: nat): Text {
    TextBuffer.Span(Spaces(), if 17 <= depth * 2 then 16 else depth * 2)
  }

  /** "name: value, name: value" */
  ghost function PrintArgs(args: seq<Arg>): Text {
    if args == [] then []
    else
      CStr(args[0].name) + ([58, 32] + (PrintValue(args[0].value)
      + (if |args| == 1 then [] else [44, 32] + PrintArgs(args[1..]))))
  }

  /** The selections between braces, none for an empty list. */
  ghost function PrintBody(sels: seq<Sel>, depth: nat): Text
    decreases sels, 2
  {
    if sels == [] then [] else [32, 123, 10] + (PrintSels(sels, depth + 1) + (Indent(depth) + [125]))
  }

  ghost function PrintSels(sels: seq<Sel>, depth: nat): Text
    decreases sels, 1
  {
    if sels == [] then [] else PrintSel(sels[0], depth) + PrintSels(sels[1..], depth)
  }

  /** What follows the indentation, up to the newline. */
  ghost function PrintHead(sel: Sel): Text {
    if sel.frag.Some? then [46, 46, 46] + CStr(sel.frag.value)
    else if sel.inl.Some? then [46, 46, 46, 32, 111, 110, 32] + CStr(sel.inl.value.on)
    else
      (if sel.alias.Some? then CStr(sel.alias.value) + [58, 32] else [])
      + ((if sel.name.Some? then CStr(sel.name.value) else [])
      + (if sel.args == [] then [] else [40] + (PrintArgs(sel.args) + [41])))
  }

  ghost function PrintSel(sel: Sel, depth: nat): Text
    decreases sel, 0
  {
    Indent(depth) + (PrintHead(sel)
    + ((if sel.frag.Some? then []
        else if sel.inl.Some? then PrintBody(sel.inl.value.sels, depth)
        else PrintBody(sel.sels, depth))
    + [10]))
  }
}
