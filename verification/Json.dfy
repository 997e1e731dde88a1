/** GraphQL values and their JSON text (gqlvalue.c). */
module Json {
  import opened Bytes
  import opened TextBuffer

  const INT32_MAX: int := 0x7fff_ffff
  const INT64_MAX: int := 0x7fff_ffff_ffff_ffff

  datatype Value =
    | Null
    | Bool(b: bool)
    | Int(i: int)      // 32 bits
    | I64(i: int)      // 64 bits
    | Str(s: Text)
    | List(items: seq<Value>)
    | Object(members: seq<Member>)

  datatype Member = Member(key: Text, value: Value)

  /** A value the C structures can hold: integers in range, C strings without a NUL. */
  ghost predicate Sound(v: Value) {
    match v
    case Int(i) => -INT32_MAX - 1 <= i <= INT32_MAX
    case I64(i) => -INT64_MAX - 1 <= i <= INT64_MAX
    case Str(s) => NulFree(s)
    case List(items) => forall k :: 0 <= k < |items| ==> Sound(items[k])
    case Object(members) => forall k :: 0 <= k < |members| ==> NulFree(members[k].key) && Sound(members[k].value)
    case _ => true
  }

  // ----- numbers

  function Digit(d: nat): (b: Byte)
    requires d < 10
  {
    (48 + d) as Byte
  }

  function Digits(n: nat): (t: Text)
    ensures |t| > 0 && forall b :: b in t ==> 48 <= b <= 57
  {
    if n < 10 then [Digit(n)] else Digits(n / 10) + [Digit(n % 10)]
  }

  /** "%lld" */
  function Decimal(i: int): Text {
    if i < 0 then [45] + Digits(-i) else Digits(i)
  }

  // ----- padding

  /** The `spaces` constant: a newline and 255 blanks. */
  function Spaces(): (t: Text)
    ensures |t| == 256 && forall b :: b in t ==> b == 10 || b == 32
  {
    [10] + seq(255, _ => 32)
  }

  /** How much of `spaces` goes before the close (first) and before each item (second) of a list or object. */
  function Pads(indent: int, depth: nat): (int, int) {
    var newline := if 0 < indent then 1 else 0;
    var i := indent * depth + newline;
    if 257 <= i then (256 - indent, 256) else (i, i + indent)
  }

  /** The appends read no further than the end of `spaces`. */
  predicate PadsFit(indent: int, depth: nat) {
    Pads(indent, depth).0 <= 256 && Pads(indent, depth).1 <= 256
  }

  function OpenPad(indent: int, depth: nat): Text
    requires PadsFit(indent, depth)
  {
    if 0 < Pads(indent, depth).1 then Span(Spaces(), Pads(indent, depth).1) else []
  }

  function ClosePad(indent: int, depth: nat): Text
    requires PadsFit(indent, depth)
  {
    if 0 < indent then Span(Spaces(), Pads(indent, depth).0) else []
  }

  ghost predicate Fits(v: Value, indent: int, depth: nat) {
    match v
    case List(items) => PadsFit(indent, depth) && forall k :: 0 <= k < |items| ==> Fits(items[k], indent, depth + 1)
    case Object(members) =>
      PadsFit(indent, depth) && forall k :: 0 <= k < |members| ==> Fits(members[k].value, indent, depth + 1)
    case _ => true
  }

  // ----- the text

  const NULL_TEXT: Text := [110, 117, 108, 108]
  const TRUE_TEXT: Text := [116, 114, 117, 101]
  const FALSE_TEXT: Text := [102, 97, 108, 115, 101]

  ghost function Print(v: Value, indent: int, depth: nat): Text
    requires Fits(v, indent, depth)
    decreases v, 0
  {
    match v
    case Null => NULL_TEXT
    case Bool(b) => if b then TRUE_TEXT else FALSE_TEXT
    case Int(i) => Decimal(i)
    case I64(i) => Decimal(i)
    case Str(s) => [34] + Escape(CStr(s)) + [34]
    case List(items) =>
      [91] + PrintItems(items, OpenPad(indent, depth), indent, depth + 1) + ClosePad(indent, depth) + [93]
    case Object(members) =>
      [123] + PrintMembers(members, OpenPad(indent, depth), indent, depth + 1) + ClosePad(indent, depth) + [125]
  }

  /** The items at a depth, each after the padding, with commas between. */
  ghost function PrintItems(items: seq<Value>, pad: Text, indent: int, depth: nat): Text
    requires forall k :: 0 <= k < |items| ==> Fits(items[k], indent, depth)
    decreases items, 1
  {
    if items == [] then []
    else
      pad + Print(items[0], indent, depth)
      + (if |items| == 1 then [] else [44] + PrintItems(items[1..], pad, indent, depth))
  }

  ghost function PrintMembers(members: seq<Member>, pad: Text, indent: int, depth: nat): Text
    requires forall k :: 0 <= k < |members| ==> Fits(members[k].value, indent, depth)
    decreases members, 1
  {
    if members == [] then []
    else
      pad + [34] + CStr(members[0].key) + [34, 58] + Print(members[0].value, indent, depth)
      + (if |members| == 1 then [] else [44] + PrintMembers(members[1..], pad, indent, depth))
  }
}
