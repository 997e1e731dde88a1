/** The recursive-descent reader of gqljson.c: one cursor that every method moves, proved against the grammar. */
module JsonReader {
  import opened Bytes
  import opened Json
  import opened JsonParse
  import opened Parsing
  import opened Wrappers

  class Reader {
    const text: Text
    var cur: nat

    constructor (text: Text)
      ensures this.text == text && Left() == text
    {
      this.text := text;
      cur := 0;
    }

    /** The text not yet read; past the end there is none. */
    function Left(): Text
      reads this
    {
      if cur <= |text| then text[cur..] else []
    }

    /** The byte at the cursor, or a NUL from the end on. */
    function Here(): (b: Byte)
      reads this
      ensures b == Head(Left())
    {
      if cur < |text| then text[cur] else 0
    }

    /** Moves on by `n` bytes; past the end nothing is left to read. */
    method Skip(n: nat)
      modifies this`cur
      ensures cur == old(cur) + n
      ensures Left() == if n <= |old(Left())| then old(Left())[n..] else []
    {
      cur := cur + n;
    }

    method SkipJWhite()
      modifies this`cur
      ensures Left() == SkipWhite(old(Left())) && cur >= old(cur)
    {
      while IsWhite(Here())
        invariant SkipWhite(Left()) == SkipWhite(old(Left())) && cur >= old(cur)
        decreases |Left()|
      {
        Skip(1);
      }
    }

    method ParseDigits() returns (i: int, big: bool)
      requires cur <= |text|
      modifies this`cur
      ensures old(cur) <= cur <= |text|
      ensures ReadDigits(old(Left()), 0, false) == Digited(i, big, Left())
    {
      i, big := 0, false;
      while IsDigit(Here())
        invariant ReadDigits(Left(), i, big) == ReadDigits(old(Left()), 0, false)
        invariant old(cur) <= cur <= |text|
        decreases |Left()|
      {
        if !big {
          var d := Here() as int - 48;
          if BIGGISH <= i && INT64_MAX - i * 10 < d {
            big := true;
          } else {
            i := i * 10 + d;
          }
        }
        Skip(1);
      }
    }

    method ParseNumber() returns (v: Option<Value>)
      requires Left() != []
      modifies this`cur
      ensures Agrees(ParseNum(old(Left())), v, Left())
    {
      hide StringCreate, IntValue, ReadDigits;
      var start := cur;
      var neg := Here() == 45;
      if Here() == 45 || Here() == 43 {
        Skip(1);
      }
      var i, big := ParseDigits();
      if Here() == 46 || Here() == 101 || Here() == 69 {
        return None;
      } else if big {
        return Some(StringCreate(text[start..], cur - start));
      }
      return Some(IntValue(i, neg));
    }

    method ReadHexCode() returns (v: Option<nat>)
      modifies this`cur
      ensures v == ReadHex(old(Left())) && (v.Some? ==> Left() == old(Left())[4..])
    {
      if |text| < cur + 4 {
        return None;
      }
      ghost var s := Left();
      var hex, end := 0, cur + 4;
      ghost var k := 0;
      while cur < end
        invariant 0 <= k <= 4 && cur == end - 4 + k && end <= |text|
        invariant k >= 1 ==> HexVal(s[0]) >= 0
        invariant k >= 2 ==> HexVal(s[1]) >= 0
        invariant k >= 3 ==> HexVal(s[2]) >= 0
        invariant k >= 4 ==> HexVal(s[3]) >= 0
        invariant k == 0 ==> hex == 0
        invariant k == 1 ==> hex == HexVal(s[0])
        invariant k == 2 ==> hex == HexVal(s[0]) * 16 + HexVal(s[1])
        invariant k == 3 ==> hex == (HexVal(s[0]) * 16 + HexVal(s[1])) * 16 + HexVal(s[2])
        invariant k == 4 ==> Some(hex) == ReadHex(s)
      {
        assert text[cur] == s[k];
        var h := HexVal(text[cur]);
        if h < 0 {
          return None;
        }
        hex := hex * 16 + h;
        Skip(1);
        k := k + 1;
      }
      return Some(hex);
    }

    /** From just after the "u" of an escape to just after its last digit. */
    method ReadCodePoint() returns (v: Option<Text>)
      modifies this`cur
      ensures Agrees(ReadUnicode(old(Left())), v, Left())
    {
      ghost var s := Left();
      var code := ReadHexCode();
      if code.None? {
        return None;
      }
      if code.value < 0xD800 || 0xDFFF < code.value {
        return Some(Utf8(code.value));
      }
      if cur + 1 >= |text| || text[cur] != 92 || text[cur + 1] != 117 {
        return None;
      }
      Skip(2);
      assert Left() == s[6..];
      var low := ReadHexCode();
      if low.None? {
        return None;
      }
      return Some(Utf8((code.value - 0xD800) % 1024 * 1024 + low.value % 1024 + 0x10000));
    }

    method ParseEscapes() returns (v: Option<Value>)
      modifies this`cur
      ensures Agrees(ParseEscaped(old(Left()), []), v, Left())
    {
      ghost var s := Left();
      var t := [];
      while cur < |text| && Here() != 34
        invariant ParseEscaped(Left(), t) == ParseEscaped(s, [])
        decreases |Left()|
      {
        if Here() != 92 {
          t := t + [Here()];
          Skip(1);
        } else {
          ghost var at := Left();
          Skip(1);
          assert Left() == at[1..];
          if Here() == 117 {
            Skip(1);
            assert Left() == at[2..];
            var bytes := ReadCodePoint();
            if bytes.None? {
              return None;
            }
            t := t + bytes.value;
          } else if Unletter(Here()) == 0 {
            return None;
          } else {
            t := t + [Unletter(Here())];
            Skip(1);
            assert Left() == at[2..];
          }
        }
      }
      v := Some(Str(CStr(t)));
      Skip(1);
    }

    /** Moves to the first quote, or stops short at a backslash before it. */
    method ScanString() returns (n: nat, escaped: bool)
      modifies this`cur
      ensures escaped <==> 92 in old(Left())[..ToQuote(old(Left()))]
      ensures !escaped ==> n == ToQuote(old(Left())) && Left() == old(Left())[n..] && cur == old(cur) + n
    {
      ghost var s := Left();
      n := 0;
      while cur < |text| && Here() != 34
        invariant n <= |s| && Left() == s[n..] && cur == old(cur) + n
        invariant ToQuote(s) == n + ToQuote(Left()) && 92 !in s[..n]
        decreases |Left()|
      {
        if Here() == 92 {
          assert s[..ToQuote(s)][n] == 92;
          return n, true;
        }
        Skip(1);
        n := n + 1;
      }
      escaped := false;
    }

    /** From just after the opening quote. */
    method ParseStr() returns (v: Option<Value>)
      modifies this`cur
      ensures Agrees(ParseString(old(Left())), v, Left())
    {
      var start := cur;
      var n, escaped := ScanString();
      if escaped {
        cur := start;
        v := ParseEscapes();
      } else {
        v := Some(StringCreate(if start <= |text| then text[start..] else [], n));
        Skip(1);
      }
    }

    method ParseObj() returns (v: Option<Value>)
      requires Here() == 123
      modifies this`cur
      ensures Agrees(ParseValue(old(Left())), v, Left())
      decreases |Left()|, 0
    {
      assert SkipWhite(Left()) == Left();
      Skip(1);
      SkipJWhite();
      if Here() == 125 {
        Skip(1);
        return Some(Object([]));
      }
      var members := ParseObjMembers();
      v := if members.None? then None else Some(Object(members.value));
    }

    /** The loop over members, through the closing byte. */
    method ParseObjMembers() returns (r: Option<seq<Member>>)
      modifies this`cur
      ensures Agrees(ParseMembers(old(Left())), r, Left())
      decreases |Left()|, 3
    {
      var xs: seq<Member> := [];
      ghost var s := Left();
      AfterNone(ParseMembers(s));
      while cur < |text|
        invariant |Left()| <= |s| && After(xs, ParseMembers(Left())) == ParseMembers(s)
        decreases |Left()|
      {
        var x := ParseObjMember();
        if x.None? {
          return None;
        }
        SkipJWhite();
        if Here() != 44 {
          if Here() != 125 {
            return None;
          }
          Skip(1);
          return Some(xs + [x.value]);
        }
        Skip(1);
        AfterOne(xs, x.value, ParseMembers(Left()));
        xs := xs + [x.value];
      }
      return None;
    }

    method ParseObjMember() returns (m: Option<Member>)
      modifies this`cur
      ensures Agrees(ParseMember(old(Left())), m, Left())
      decreases |Left()|, 2
    {
      var key := ParseObjKey();
      if key.None? {
        return None;
      }
      SkipJWhite();
      var x := ParseVal();
      if x.None? {
        return None;
      }
      return Some(Member(key.value, x.value));
    }

    /** Moves to the first quote, or to the end. */
    method ScanKey() returns (n: nat)
      requires cur <= |text|
      modifies this`cur
      ensures n == ToQuote(old(Left())) && cur == old(cur) + n <= |text| && Left() == old(Left())[n..]
    {
      ghost var s := Left();
      n := 0;
      while cur < |text| && Here() != 34
        invariant n <= |s| && Left() == s[n..] && cur == old(cur) + n <= |text|
        invariant ToQuote(s) == n + ToQuote(Left())
        decreases |Left()|
      {
        Skip(1);
        n := n + 1;
      }
    }

    /** A key, from the space before it through its colon. */
    method ParseObjKey() returns (v: Option<Text>)
      modifies this`cur
      ensures Agrees(ParseKey(old(Left())), v, Left())
    {
      SkipJWhite();
      if Here() != 34 {
        return None;
      }
      Skip(1);
      var start := cur;
      ghost var s := Left();
      var n := ScanKey();
      if 256 <= n {
        return None;
      }
      var key := CStr(text[start..cur]);
      assert text[start..cur] == s[..n];
      Skip(1);
      assert Left() == PastQuote(s, n);
      var ok := ParseColon();
      v := if ok then Some(key) else None;
    }

    method ParseColon() returns (ok: bool)
      modifies this`cur
      ensures ok == (Head(SkipWhite(old(Left()))) == 58)
      ensures ok ==> Left() == SkipWhite(old(Left()))[1..]
    {
      SkipJWhite();
      ok := Here() == 58;
      if ok {
        Skip(1);
      }
    }

    method ParseArray() returns (v: Option<Value>)
      requires Here() == 91
      modifies this`cur
      ensures Agrees(ParseValue(old(Left())), v, Left())
      decreases |Left()|, 0
    {
      assert SkipWhite(Left()) == Left();
      Skip(1);
      SkipJWhite();
      if Here() == 93 {
        Skip(1);
        return Some(List([]));
      }
      var items := ParseArrayItems();
      v := if items.None? then None else Some(List(items.value));
    }

    /** The loop over items, through the closing byte. */
    method ParseArrayItems() returns (r: Option<seq<Value>>)
      modifies this`cur
      ensures Agrees(ParseItems(old(Left())), r, Left())
      decreases |Left()|, 3
    {
      var xs: seq<Value> := [];
      ghost var s := Left();
      AfterNone(ParseItems(s));
      while cur < |text|
        invariant |Left()| <= |s| && After(xs, ParseItems(Left())) == ParseItems(s)
        decreases |Left()|
      {
        var x := ParseVal();
        if x.None? {
          return None;
        }
        SkipJWhite();
        if Here() != 44 {
          if Here() != 93 {
            return None;
          }
          Skip(1);
          return Some(xs + [x.value]);
        }
        Skip(1);
        AfterOne(xs, x.value, ParseItems(Left()));
        xs := xs + [x.value];
      }
      return None;
    }

    method ParseVal() returns (v: Option<Value>)
      modifies this`cur
      ensures Agrees(ParseValue(old(Left())), v, Left())
      decreases |Left()|, 1
    {
      SkipJWhite();
      ghost var s := Left();
      assert SkipWhite(s) == s;
      var c := Here();
      if c == 123 {
        v := ParseObj();
      } else if c == 91 {
        v := ParseArray();
      } else if c == 34 {
        Skip(1);
        assert Left() == s[1..];
        v := ParseStr();
      } else if IsDigit(c) || c == 45 || c == 43 {
        v := ParseNumber();
      } else if TRUE_TEXT <= Left() {
        Skip(4);
        v := Some(Bool(true));
      } else if FALSE_TEXT <= Left() {
        Skip(5);
        v := Some(Bool(false));
      } else if NULL_TEXT <= Left() {
        Skip(4);
        v := Some(Null);
      } else {
        v := None;
      }
    }
  }
}
