/** The growable text of text.c, and the escaping of JSON strings. */
module TextBuffer {
  import opened Bytes

  const MIN_SIZE: nat := 8

  // ----- escaping

  /** The width of a byte in a JSON string: the json_chars table. */
  function Width(b: Byte): nat {
    if b == 34 || b == 92 || b == 8 || b == 9 || b == 10 || b == 12 || b == 13 then 2
    else if b < 32 then 6
    else 1
  }

  /** json_size: the sum of the widths. */
  function JsonSize(s: Text): nat {
    if s == [] then 0 else JsonSize(s[..|s| - 1]) + Width(s[|s| - 1])
  }

  function HexChar(d: nat): Byte
    requires d < 16
  {
    (if d < 10 then 48 + d else 87 + d) as Byte
  }

  /** The letter after the backslash of a two-byte escape. */
  function Letter(b: Byte): Byte {
    match b
    case 8 => 98
    case 9 => 116
    case 10 => 110
    case 12 => 102
    case 13 => 114
    case _ => b
  }

  function EscapeByte(b: Byte): (e: Text)
    ensures |e| == Width(b)
  {
    if Width(b) == 1 then [b]
    else if Width(b) == 2 then [92, Letter(b)]
    else [92, 117, 48, 48, HexChar(b as nat / 16), HexChar(b as nat % 16)]
  }

  function Escape(s: Text): (e: Text)
    ensures |e| == JsonSize(s)
  {
    if s == [] then [] else Escape(s[..|s| - 1]) + EscapeByte(s[|s| - 1])
  }

  lemma {:induction false} EscapeConcat(a: Text, b: Text)
    ensures Escape(a + b) == Escape(a) + Escape(b)
    decreases |b|
  {
    if b == [] {
      assert a + b == a;
    } else {
      var b', x := b[..|b| - 1], b[|b| - 1];
      assert (a + b)[..|a + b| - 1] == a + b' && (a + b)[|a + b| - 1] == x;
      EscapeConcat(a, b');
      Assoc(Escape(a), Escape(b'), EscapeByte(x));
    }
  }

  lemma AllNarrow(s: Text, b: Byte)
    ensures (forall x :: x in s + [b] ==> Width(x) == 1) <==> (forall x :: x in s ==> Width(x) == 1) && Width(b) == 1
  {
    hide Width;
    assert b in s + [b] && forall x :: x in s ==> x in s + [b];
  }

  /** Nothing needs escaping exactly when the size is the length. */
  lemma {:induction false} PlainSize(s: Text)
    ensures JsonSize(s) >= |s|
    ensures JsonSize(s) == |s| <==> forall b :: b in s ==> Width(b) == 1
    ensures JsonSize(s) == |s| ==> Escape(s) == s
    decreases |s|
  {
    if s != [] {
      var s', b := s[..|s| - 1], s[|s| - 1];
      PlainSize(s');
      assert s == s' + [b];
      AllNarrow(s', b);
    }
  }

  /** A prefix needs no more room than the whole. */
  lemma {:induction false} PrefixSize(s: Text, k: nat)
    requires k <= |s|
    ensures JsonSize(s[..k]) <= JsonSize(s)
    ensures k < |s| ==> JsonSize(s[..k]) + Width(s[k]) <= JsonSize(s)
    decreases |s|
  {
    if k < |s| {
      var t := s[..|s| - 1];
      assert s[..k] == t[..k];
      PrefixSize(t, k);
    } else {
      assert s[..k] == s;
    }
  }

  lemma EscapeNext(s: Text, i: nat)
    requires i < |s|
    ensures Escape(s[..i + 1]) == Escape(s[..i]) + EscapeByte(s[i])
    ensures JsonSize(s[..i + 1]) == JsonSize(s[..i]) + Width(s[i]) <= JsonSize(s)
  {
    assert s[..i + 1][..i] == s[..i];
    PrefixSize(s, i + 1);
  }

  // ----- the buffer

  /** The bytes an append takes from `s`: the first `len`, or the whole C string when `len` is not positive. */
  function Span(s: Text, len: int): (t: Text)
    requires len <= |s|
    ensures t <= s
  {
    if len <= 0 then CStr(s) else s[..len]
  }

  class Buffer {
    var text: array<Byte>  // one byte more than alen, for the NUL
    var len: nat
    var alen: nat

    ghost predicate Valid()
      reads this, text
    {
      len <= alen && text.Length == alen + 1 && text[len] == 0
    }

    ghost function Contents(): Text
      requires Valid()
      reads this, text
    {
      text[..len]
    }

    /** agoo_text_allocate */
    constructor (size: int)
      ensures Valid() && fresh(text) && Contents() == [] && alen == if MIN_SIZE <= size then size else MIN_SIZE
    {
      var a := if MIN_SIZE <= size then size else MIN_SIZE;
      alen, len := a, 0;
      text := new Byte[a + 1](_ => 0);
    }

    /** agoo_text_create */
    constructor Create(s: Text)
      ensures Valid() && fresh(text) && Contents() == s
    {
      var a := if MIN_SIZE <= |s| then |s| else MIN_SIZE;
      alen, len := a, |s|;
      text := new Byte[a + 1](i => if 0 <= i < |s| then s[i] else 0);
    }

    /** Makes room for `more` bytes and the NUL, at least by half as much again. */
    method Reserve(more: nat)
      requires Valid()
      modifies this`text, this`alen
      ensures Valid() && Contents() == old(Contents())
      ensures len + more <= alen && (text == old(text) || fresh(text))
    {
      if alen <= len + more {
        var a := alen + more + alen / 2;
        var bigger := new Byte[a + 1](i requires 0 <= i < a + 1 reads this, this.text =>
                                      if i < this.text.Length then this.text[i] else 0);
        text, alen := bigger, a;
      }
    }

    method Append(s: Text, n: int)
      requires Valid() && n <= |s|
      modifies this, text
      ensures Valid() && (text == old(text) || fresh(text))
      ensures Contents() == old(Contents()) + Span(s, n)
    {
      var more := if 0 >= n then |CStr(s)| else n;
      Reserve(more);
      CopyIn(Span(s, n), len);
      len := len + more;
      text[len] := 0;
      assert text[..len] == old(text[..len]) + Span(s, n);
    }

    method AppendChar(c: Byte)
      requires Valid()
      modifies this, text
      ensures Valid() && (text == old(text) || fresh(text))
      ensures Contents() == old(Contents()) + [c]
    {
      Reserve(1);
      text[len] := c;
      len := len + 1;
      text[len] := 0;
      assert text[..len] == old(text[..len]) + [c];
    }

    method Prepend(s: Text, n: int)
      requires Valid() && n <= |s|
      modifies this, text
      ensures Valid() && (text == old(text) || fresh(text))
      ensures Contents() == Span(s, n) + old(Contents())
    {
      var more := if 0 >= n then |CStr(s)| else n;
      Reserve(more);
      OpenFront(Span(s, n));
      len := len + more;
    }

    /** Moves the text up by the length of `s` and copies `s` in front of it. */
    method OpenFront(s: Text)
      requires len + |s| < text.Length && text[len] == 0
      modifies text
      ensures text[..len + |s|] == s + old(text[..len]) && text[len + |s|] == 0
    {
      ghost var was := text[..len + 1];
      MoveUp(|s|);
      ghost var moved := text[..];
      CopyIn(s, 0);
      Joined(s, was, moved, text[..]);
    }

    static lemma Joined(s: Text, was: Text, moved: Text, now: Text)
      requires |s| + |was| <= |moved| == |now| && |was| > 0
      requires moved[|s|..|s| + |was|] == was
      requires now[..|s|] == s && now[|s|..] == moved[|s|..]
      ensures now[..|s| + |was| - 1] == s + was[..|was| - 1]
      ensures now[|s| + |was| - 1] == was[|was| - 1]
    {
      assert moved[|s|..][..|was|] == was;
      assert now == now[..|s|] + now[|s|..];
    }

    /** memmove of the text and its NUL. */
    method MoveUp(k: nat)
      requires len + k < text.Length
      modifies text
      ensures text[k..k + len + 1] == old(text[..len + 1])
    {
      forall i | 0 <= i < len + 1 {
        text[k + i] := text[i];
      }
    }

    /** memcpy into the text: nothing before or after the copy changes. */
    method CopyIn(s: Text, at: nat)
      requires at + |s| <= text.Length
      modifies text
      ensures text[..at + |s|] == old(text[..at]) + s
      ensures text[at + |s|..] == old(text[at + |s|..])
    {
      forall i | 0 <= i < |s| {
        text[at + i] := s[i];
      }
    }

    /** agoo_text_append_json: sizes the escaped string first, then writes exactly that many bytes. */
    method AppendJson(s: Text, n: int)
      requires Valid() && n <= |s|
      modifies this, text
      ensures Valid() && (text == old(text) || fresh(text))
      ensures Contents() == old(Contents()) + Escape(Span(s, n))
    {
      var src := if 0 >= n then CStr(s) else s[..n];
      var size := Size(src);
      Reserve(size);
      WriteEscapes(src, size, len);
      len := len + size;
      text[len] := 0;
      assert text[..len] == text[..old(len) + JsonSize(src)];
    }

    /** The copy of a string that needs no escape, or the escaping loop. */
    method WriteEscapes(src: Text, size: nat, ts: nat)
      requires size == JsonSize(src) && ts + size <= text.Length
      modifies text
      ensures text[..ts + size] == old(text[..ts]) + Escape(src)
    {
      if size == |src| {
        PlainSize(src);
        CopyIn(src, ts);
      } else {
        WriteAll(src, ts);
      }
    }

    /** The escaping loop, from `ts` on. */
    method WriteAll(src: Text, ts: nat)
      requires ts + JsonSize(src) <= text.Length
      modifies text
      ensures text[..ts + JsonSize(src)] == old(text[..ts]) + Escape(src)
    {
      var end := ts;
      PrefixSize(src, 0);
      for i := 0 to |src|
        invariant end == ts + JsonSize(src[..i]) <= text.Length
        invariant text[..end] == old(text[..ts]) + Escape(src[..i])
      {
        EscapeNext(src, i);
        ghost var before := text[..end];
        end := WriteEscaped(src[i], end);
        Assoc(old(text[..ts]), Escape(src[..i]), EscapeByte(src[i]));
      }
      assert src[..|src|] == src;
    }

    /** One byte of the escaping loop, written at `ts`. */
    method WriteEscaped(b: Byte, ts: nat) returns (end: nat)
      requires ts + Width(b) <= text.Length
      modifies text
      ensures end == ts + Width(b) && text[..end] == old(text[..ts]) + EscapeByte(b)
    {
      if Width(b) == 1 {
        text[ts] := b;
      } else if Width(b) == 2 {
        text[ts] := 92;
        text[ts + 1] := Letter(b);
      } else {
        CopyIn([92, 117, 48, 48, HexChar(b as nat / 16), HexChar(b as nat % 16)], ts);
      }
      end := ts + Width(b);
    }

    static method Size(s: Text) returns (size: nat)
      ensures size == JsonSize(s)
    {
      size := 0;
      for i := 0 to |s|
        invariant size == JsonSize(s[..i])
      {
        assert s[..i + 1][..i] == s[..i];
        size := size + Width(s[i]);
      }
      assert s[..|s|] == s;
    }
  }
}
