/** The table of GraphQL types (graphql.c) and the interning of list and non-null types by read_type (sdl.c). */
module TypeTable {
  import opened Bytes
  import opened Chains
  import opened Parsing
  import opened SdlParse
  import opened Wrappers
  import SdlReader
  import SdlRoundTrip

  const BUCKET_SIZE: nat := 64
  const BAD_NAME: nat := 0xffff_ffff_ffff_ffff

  /** A type object; `id` is its address, so that two objects with the same contents are still two. */
  datatype Kind = Named | ListOf | NonNull
  datatype Ty = Ty(id: nat, name: Text, kind: Kind, base: Option<Ty>)

  // ----- the hash

  /** The name_chars table: 0 for what a name cannot hold. */
  function CharCode(b: Byte): (x: nat)
    ensures x == 0 <==> !IsToken(b)
  {
    if 48 <= b <= 57 then b as nat - 47
    else if 65 <= b <= 90 then b as nat - 54
    else if b == 95 then 37
    else if 97 <= b <= 122 then b as nat - 59
    else 0
  }

  function HashFrom(name: Text, h: nat): (r: nat)
    requires h < WORD64
    ensures r < WORD64
  {
    if name == [] || name[0] == 0 then h
    else if CharCode(name[0]) == 0 then BAD_NAME
    else HashFrom(name[1..], (37 * h + CharCode(name[0])) % WORD64)
  }

  /** calc_hash: all names with a bracket or an exclamation mark share one. */
  function NameHash(name: Text): (r: nat)
    ensures r < WORD64
  {
    HashFrom(name, 0)
  }

  lemma {:induction false} BadName(name: Text, h: nat, i: nat)
    requires h < WORD64 && NulFree(name) && i < |name| && !IsToken(name[i])
    ensures HashFrom(name, h) == BAD_NAME
    decreases |name|
  {
    assert name[0] in name;
    if CharCode(name[0]) != 0 {
      assert forall b :: b in name[1..] ==> b in name;
      BadName(name[1..], (37 * h + CharCode(name[0])) % WORD64, i - 1);
    }
  }

  // ----- spelling

  /** The spelling of a type along its base chain. */
  function Spell(t: Ty): Text {
    match t
    case Ty(_, name, ListOf, Some(base)) => [91] + Spell(base) + [93]
    case Ty(_, name, NonNull, Some(base)) => Spell(base) + [33]
    case Ty(_, name, _, _) => name
  }

  /** A list or non-null type has a base, any other none, and the chain spells the name. */
  ghost predicate Right(t: Ty) {
    && t.name == Spell(t) && 0 < |t.name| < 256
    && match t
       case Ty(_, name, Named, None) => SdlRoundTrip.AllToken(name)
       case Ty(_, _, ListOf, Some(base)) => Right(base)
       case Ty(_, _, NonNull, Some(base)) => Right(base)
       case _ => false
  }

  lemma {:induction false} NoNul(t: Ty)
    requires Right(t)
    ensures NulFree(t.name)
  {
    if t.base.Some? {
      NoNul(t.base.value);
    }
  }

  /** The name says what kind of type it is and what its base is called. */
  lemma OneShape(t: Ty, u: Ty)
    requires Right(t) && Right(u) && t.name == u.name
    ensures t.kind == u.kind && (t.base.Some? ==> u.base.Some? && t.base.value.name == u.base.value.name)
  {
    LastByte(t);
    LastByte(u);
    if t.kind == ListOf {
      var a, b := t.base.value.name, u.base.value.name;
      assert t.name[1..|t.name| - 1] == a && u.name[1..|u.name| - 1] == b;
    } else if t.kind == NonNull {
      var a, b := t.base.value.name, u.base.value.name;
      assert t.name[..|t.name| - 1] == a && u.name[..|u.name| - 1] == b;
    }
  }

  lemma LastByte(t: Ty)
    requires Right(t)
    ensures match t.kind
            case ListOf => t.name[|t.name| - 1] == 93
            case NonNull => t.name[|t.name| - 1] == 33
            case Named => IsToken(t.name[|t.name| - 1])
  {
  }

  /** The named type at the heart of a type expression, and the spelling of the whole. */
  datatype Spelled = Spelled(base: Text, name: Text)

  /** A type expression: a name or a bracketed type, and perhaps an exclamation mark. */
  function ReadSpelling(s: Text): (p: Parse<Spelled>)
    ensures p.Ok? ==> |p.rest| < |s|
    decreases |s|, 2
  {
    match ReadBare(s)
    case Err => Err
    case Beyond => Beyond
    case Ok(x, rest) => Bang(x, rest)
  }

  function ReadBare(s0: Text): (p: Parse<Spelled>)
    ensures p.Ok? ==> |p.rest| < |s0|
    decreases |s0|, 1
  {
    var s := SkipWhite(s0);
    if Head(s) == 91 then ReadBracket(s[1..])
    else
      match ReadName(s)
      case Err => Err
      case Beyond => Beyond
      case Ok(name, rest) => Ok(Spelled(name, name), rest)
  }

  function ReadBracket(s: Text): (p: Parse<Spelled>)
    ensures p.Ok? ==> |p.rest| < |s|
    decreases |s|, 3
  {
    match ReadSpelling(s)
    case Err => Err
    case Beyond => Beyond
    case Ok(x, rest) =>
      var end := SkipWhite(rest);
      if Head(end) != 93 || 256 <= |x.name| + 2 then Err
      else Ok(Spelled(x.base, [91] + x.name + [93]), end[1..])
  }

  function Bang(x: Spelled, s: Text): (p: Parse<Spelled>)
    ensures p.Ok? ==> |p.rest| <= |s| && p.value.base == x.base
  {
    var end := SkipWhite(s);
    if Head(end) != 33 then Ok(x, end)
    else if 256 <= |x.name| + 1 then Err
    else Ok(Spelled(x.base, x.name + [33]), end[1..])
  }

  function NameOf(p: Parse<Spelled>): Text {
    if p.Ok? then p.value.name else []
  }

  /** The type that was read is what the spelling asks for; it is in the table now and, if the table had one of that
      name before, it is that one. */
  ghost predicate Answers(p: Parse<Spelled>, t: Option<Ty>, before: Option<Ty>, now: Option<Ty>) {
    && (t.Some? <==> p.Ok? && 0 < NameHash(p.value.base))
    && (t.Some? ==> t.value.name == p.value.name && now == t && (before.Some? ==> t == before))
  }

  // ----- the table

  ghost predicate SlotRight(s: Slot<Text, Ty>, b: nat) {
    && s.key == s.value.name && NulFree(s.key) && s.hash == NameHash(s.key) && 0 < s.hash
    && b == BucketOf(s.hash, BUCKET_SIZE)
  }

  ghost predicate ChainRight(chain: seq<Slot<Text, Ty>>, b: nat) {
    && (forall i :: 0 <= i < |chain| ==> SlotRight(chain[i], b))
    && Distinct(chain)
  }

  lemma {:induction false} FoundName(chain: seq<Slot<Text, Ty>>, b: nat, name: Text)
    requires ChainRight(chain, b) && Find(chain, name).Some?
    ensures Find(chain, name).value.name == name && 0 < NameHash(name)
    decreases |chain|
  {
    hide NameHash, BucketOf;
    assert SlotRight(chain[0], b);
    if chain[0].key != name {
      assert forall i :: 0 <= i < |chain[1..]| ==> chain[1..][i] == chain[i + 1];
      FoundName(chain[1..], b, name);
    }
  }

  class Table {
    const buckets: array<seq<Slot<Text, Ty>>>
    var made: nat  // how many type objects have been allocated

    ghost predicate Valid()
      reads buckets
    {
      buckets.Length == BUCKET_SIZE && forall b :: 0 <= b < buckets.Length ==> ChainRight(buckets[b], b)
    }

    /** The map from names to types that the table stands for. */
    ghost function Lookup(name: Text): Option<Ty>
      requires Valid()
      reads buckets
    {
      Find(buckets[BucketOf(NameHash(name), BUCKET_SIZE)], name)
    }

    constructor ()
      ensures Valid() && fresh(buckets) && Interned() && forall name :: Lookup(name) == None
    {
      made := 0;
      buckets := new seq<Slot<Text, Ty>>[BUCKET_SIZE](_ => []);
    }

    /** The walk along a chain: the hashes agree and strcmp finds no difference. */
    method Walk(b: nat, name: Text, h: nat) returns (i: nat)
      requires Valid() && NulFree(name) && h == NameHash(name) && b == BucketOf(h, BUCKET_SIZE)
      ensures i <= |buckets[b]| && (i == |buckets[b]| <==> Lookup(name) == None)
      ensures i < |buckets[b]| ==> buckets[b][i].key == name && Lookup(name) == Some(buckets[b][i].value)
    {
      hide BucketOf, NameHash;
      var chain := buckets[b];
      i := 0;
      while i < |chain|
        invariant i <= |chain|
        invariant forall j :: 0 <= j < i ==> chain[j].key != name
      {
        assert SlotRight(chain[i], b);
        if h == chain[i].hash && chain[i].value.name == name {
          FindAt(chain, i, name);
          return;
        }
        i := i + 1;
      }
      FindNot(chain, name);
    }

    /** gql_type_get: no name with hash 0 is ever found. */
    method Get(name: Text) returns (t: Option<Ty>)
      requires Valid() && NulFree(name)
      ensures t == Lookup(name)
    {
      t := None;
      var h := NameHash(name);
      if 0 < h {
        var b := BucketOf(h, BUCKET_SIZE);
        var i := Walk(b, name, h);
        if i < |buckets[b]| {
          t := Some(buckets[b][i].value);
        }
      } else if Lookup(name) != None {
        FoundName(buckets[BucketOf(h, BUCKET_SIZE)], BucketOf(h, BUCKET_SIZE), name);
        assert false;
      }
    }

    /** gql_type_set: replaces the type of the name or adds it; a name with hash 0 is refused. */
    method Set(t: Ty) returns (ok: bool)
      requires Valid() && NulFree(t.name)
      modifies buckets
      ensures Valid() && (ok <==> 0 < NameHash(t.name))
      ensures ok ==> Lookup(t.name) == Some(t)
      ensures !ok ==> Lookup(t.name) == old(Lookup(t.name))
      ensures forall n :: n != t.name ==> Lookup(n) == old(Lookup(n))
    {
      hide BucketOf, NameHash;
      var h := NameHash(t.name);
      if h <= 0 {
        return false;
      }
      var b := BucketOf(h, BUCKET_SIZE);
      var i := Walk(b, t.name, h);
      var chain := buckets[b];
      if i < |chain| {
        buckets[b] := chain[i := chain[i].(value := t)];
        assert buckets[b][i].key == t.name;
        FindAt(buckets[b], i, t.name);
        forall n | n != t.name
          ensures Find(buckets[b], n) == Find(chain, n)
        {
          FindReplaced(chain, i, t, n);
        }
      } else {
        buckets[b] := [Slot(t.name, h, t)] + chain;
        assert buckets[b][1..] == chain;
        NotThere(chain, t.name);
      }
      ok := true;
    }

    /** type_remove */
    method Remove(t: Ty)
      requires Valid() && NulFree(t.name)
      modifies buckets
      ensures Valid() && Lookup(t.name) == None
      ensures forall n :: n != t.name ==> Lookup(n) == old(Lookup(n))
    {
      hide BucketOf, NameHash;
      var h := NameHash(t.name);
      if 0 < h {
        var b := BucketOf(h, BUCKET_SIZE);
        var i := Walk(b, t.name, h);
        var chain := buckets[b];
        if i < |chain| {
          Removed(chain, i);
          buckets[b] := chain[..i] + chain[i + 1..];
          forall n | n != t.name
            ensures Find(buckets[b], n) == Find(chain, n)
          {
            FindRemoved(chain, i, n);
          }
        }
      } else if Lookup(t.name) != None {
        FoundName(buckets[BucketOf(h, BUCKET_SIZE)], BucketOf(h, BUCKET_SIZE), t.name);
        assert false;
      }
    }

    // ----- interning

    /** Every type in the table is spelled by its base chain, and its base is in the table under its own name. */
    ghost predicate Interned()
      requires Valid()
      reads this`made, buckets
    {
      forall n :: Lookup(n).Some? ==> TypeRight(n)
    }

    ghost predicate TypeRight(n: Text)
      requires Valid() && Lookup(n).Some?
      reads this`made, buckets
    {
      var t := Lookup(n).value;
      && t.name == n && Right(t) && t.id < made
      && (t.base.Some? ==> Lookup(t.base.value.name) == t.base)
    }

    /** type_create for a name that is not there: a new object, found under its name from now on. */
    method Create(name: Text, kind: Kind, base: Option<Ty>) returns (t: Option<Ty>)
      requires Valid() && Interned() && NulFree(name) && Lookup(name) == None
      requires Right(Ty(made, name, kind, base)) && (base.Some? ==> Lookup(base.value.name) == base)
      modifies this`made, buckets
      ensures Valid() && Interned() && made > old(made)
      ensures if 0 < NameHash(name) then t == Some(Ty(old(made), name, kind, base)) && Lookup(name) == t
              else t == None && Lookup(name) == None
      ensures forall n :: n != name ==> Lookup(n) == old(Lookup(n))
    {
      hide NameHash, BucketOf, Right;
      var ty := Ty(made, name, kind, base);
      made := made + 1;
      var ok := Set(ty);
      forall n | Lookup(n).Some?
        ensures TypeRight(n)
      {
        assert n != name ==> old(TypeRight(n));
      }
      t := if ok then Some(ty) else None;
    }

    /** gql_assure_type */
    method AssureType(name: Text) returns (t: Option<Ty>)
      requires Valid() && Interned() && 0 < |name| < 256 && SdlRoundTrip.AllToken(name)
      modifies this`made, buckets
      ensures Valid() && Interned() && made >= old(made)
      ensures t.Some? <==> 0 < NameHash(name)
      ensures t.Some? ==> Lookup(name) == t && (old(Lookup(name)).Some? ==> t == old(Lookup(name)))
      ensures forall n :: old(Lookup(n)).Some? ==> Lookup(n) == old(Lookup(n))
    {
      assert NulFree(name);
      t := Get(name);
      if t.None? {
        t := Create(name, Named, None);
      } else {
        FoundName(buckets[BucketOf(NameHash(name), BUCKET_SIZE)], BucketOf(NameHash(name), BUCKET_SIZE), name);
      }
    }

    /** gql_assure_list: the one list of the base, unless its name is too long. */
    method AssureList(base: Ty) returns (t: Option<Ty>)
      requires Valid() && Interned() && Right(base) && Lookup(base.name) == Some(base)
      modifies this`made, buckets
      ensures Valid() && Interned() && made >= old(made)
      ensures t.Some? <==> |base.name| + 2 < 256
      ensures t.Some? ==>
                t.value.kind == ListOf && t.value.base == Some(base) && t.value.name == [91] + base.name + [93]
      ensures t.Some? ==> Lookup(t.value.name) == t
      ensures t.Some? && old(Lookup(t.value.name)).Some? ==> t == old(Lookup(t.value.name))
      ensures forall n :: old(Lookup(n)).Some? ==> Lookup(n) == old(Lookup(n))
    {
      var name := [91] + base.name + [93];
      if 256 <= |name| {
        return None;
      }
      NoNul(base);
      BadName(name, 0, 0);
      ghost var made' := Ty(made, name, ListOf, Some(base));
      assert Right(made');
      t := Get(name);
      if t.None? {
        t := Create(name, ListOf, Some(base));
      } else {
        assert TypeRight(name);
        OneShape(t.value, made');
      }
    }

    /** gql_assure_nonnull */
    method AssureNonNull(base: Ty) returns (t: Option<Ty>)
      requires Valid() && Interned() && Right(base) && Lookup(base.name) == Some(base)
      modifies this`made, buckets
      ensures Valid() && Interned() && made >= old(made)
      ensures t.Some? <==> |base.name| + 1 < 256
      ensures t.Some? ==> t.value.kind == NonNull && t.value.base == Some(base) && t.value.name == base.name + [33]
      ensures t.Some? ==> Lookup(t.value.name) == t
      ensures t.Some? && old(Lookup(t.value.name)).Some? ==> t == old(Lookup(t.value.name))
      ensures forall n :: old(Lookup(n)).Some? ==> Lookup(n) == old(Lookup(n))
    {
      var name := base.name + [33];
      if 256 <= |name| {
        return None;
      }
      NoNul(base);
      BadName(name, 0, |base.name|);
      ghost var made' := Ty(made, name, NonNull, Some(base));
      assert Right(made');
      t := Get(name);
      if t.None? {
        t := Create(name, NonNull, Some(base));
      } else {
        assert TypeRight(name);
        OneShape(t.value, made');
      }
    }

    /** read_type: the type of the spelling, the same object whenever the spelling has been read before. */
    method ReadType(doc: SdlReader.Doc) returns (t: Option<Ty>)
      requires Valid() && Interned() && doc.Valid()
      modifies this`made, buckets, doc`cur
      ensures Valid() && Interned() && doc.Valid() && made >= old(made)
      ensures var p := ReadSpelling(old(doc.Left())); Answers(p, t, old(Lookup(NameOf(p))), Lookup(NameOf(p)))
      ensures t.Some? ==> doc.Left() == ReadSpelling(old(doc.Left())).rest
      ensures forall n :: old(Lookup(n)).Some? ==> Lookup(n) == old(Lookup(n))
      decreases |doc.Left()|, 2
    {
      hide NameHash, BucketOf, ReadBare, Bang;
      ghost var p := ReadBare(doc.Left());
      t := ReadBareType(doc);
      if t.None? {
        return None;
      }
      ghost var x := p.value;
      t := MaybeNonNull(doc, t.value, x);
    }

    method ReadBareType(doc: SdlReader.Doc) returns (t: Option<Ty>)
      requires Valid() && Interned() && doc.Valid()
      modifies this`made, buckets, doc`cur
      ensures Valid() && Interned() && doc.Valid() && made >= old(made)
      ensures var p := ReadBare(old(doc.Left())); Answers(p, t, old(Lookup(NameOf(p))), Lookup(NameOf(p)))
      ensures t.Some? ==> doc.Left() == ReadBare(old(doc.Left())).rest
      ensures forall n :: old(Lookup(n)).Some? ==> Lookup(n) == old(Lookup(n))
      decreases |doc.Left()|, 1
    {
      hide NameHash, BucketOf, ReadName, ReadBracket;
      doc.SkipSpace();
      if doc.Here() == 91 {
        doc.Skip(1);
        t := ReadBracketType(doc);
      } else {
        var name := doc.ReadNameText();
        if name.None? {
          return None;
        }
        t := AssureType(name.value);
      }
    }

    method ReadBracketType(doc: SdlReader.Doc) returns (t: Option<Ty>)
      requires Valid() && Interned() && doc.Valid()
      modifies this`made, buckets, doc`cur
      ensures Valid() && Interned() && doc.Valid() && made >= old(made)
      ensures var p := ReadBracket(old(doc.Left())); Answers(p, t, old(Lookup(NameOf(p))), Lookup(NameOf(p)))
      ensures t.Some? ==> doc.Left() == ReadBracket(old(doc.Left())).rest
      ensures forall n :: old(Lookup(n)).Some? ==> Lookup(n) == old(Lookup(n))
      decreases |doc.Left()|, 3
    {
      hide NameHash, BucketOf, ReadSpelling;
      var base := ReadType(doc);
      if base.None? {
        return None;
      }
      doc.SkipSpace();
      if doc.Here() != 93 {
        return None;
      }
      doc.Skip(1);
      assert TypeRight(base.value.name);
      t := AssureList(base.value);
    }

    method MaybeNonNull(doc: SdlReader.Doc, base: Ty, ghost x: Spelled) returns (t: Option<Ty>)
      requires Valid() && Interned() && doc.Valid() && Lookup(base.name) == Some(base)
      requires x.name == base.name && 0 < NameHash(x.base)
      modifies this`made, buckets, doc`cur
      ensures Valid() && Interned() && doc.Valid() && made >= old(made)
      ensures var p := Bang(x, old(doc.Left())); Answers(p, t, old(Lookup(NameOf(p))), Lookup(NameOf(p)))
      ensures t.Some? ==> doc.Left() == Bang(x, old(doc.Left())).rest
      ensures forall n :: old(Lookup(n)).Some? ==> Lookup(n) == old(Lookup(n))
    {
      hide NameHash, BucketOf;
      assert TypeRight(base.name);
      doc.SkipSpace();
      if doc.Here() != 33 {
        return Some(base);
      }
      t := AssureNonNull(base);
      if t.Some? {
        doc.Skip(1);
      }
    }
  }
}
