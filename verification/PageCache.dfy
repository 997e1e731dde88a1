/** The page cache (page.c): a hash table that skips the comparison of short keys. */
module PageCache {
  import opened Bytes
  import opened Chains
  import opened Wrappers

  const MAX_KEY_UNIQ: nat := 9
  const MAX_KEY_LEN: nat := 1024
  const PAGE_BUCKET_SIZE: nat := 1024

  type Page = nat

  // ----- the hash

  /** calc_hash, in 64 bits with wrap-around. */
  function Hash(key: Text): (h: nat)
    ensures h < WORD64
  {
    if key == [] then 0
    else (77 * Hash(key[..|key| - 1]) + (key[|key| - 1] as int - 0x2d)) % WORD64
  }

  /** The number the hash computes, before it wraps. */
  function Poly(key: Text): int {
    if key == [] then 0 else 77 * Poly(key[..|key| - 1]) + (key[|key| - 1] as int - 0x2d)
  }

  function Pow77(n: nat): (p: nat)
    ensures p > 0
  {
    if n == 0 then 1 else 77 * Pow77(n - 1)
  }

  lemma {:induction false} HashIsPoly(key: Text)
    ensures Hash(key) == Poly(key) % WORD64
    decreases |key|
  {
    if key != [] {
      var k' := key[..|key| - 1];
      HashIsPoly(k');
      ModStep(Poly(k'), key[|key| - 1] as int - 0x2d);
    }
  }

  lemma ModStep(p: int, d: int)
    ensures (77 * (p % WORD64) + d) % WORD64 == (77 * p + d) % WORD64
  {
    var q, r := p / WORD64, p % WORD64;
    var m := 77 * r + d;
    assert 77 * p + d == (77 * q) * WORD64 + m;
    var x := m / WORD64;
    assert 77 * p + d == (77 * q + x) * WORD64 + m % WORD64;
  }

  lemma {:induction false} PolyBound(key: Text)
    ensures -3 * (Pow77(|key|) - 1) <= Poly(key) <= 3 * (Pow77(|key|) - 1)
    decreases |key|
  {
    if key != [] {
      PolyBound(key[..|key| - 1]);
    }
  }

  lemma {:induction false} PowGrows(m: nat, n: nat)
    requires m <= n
    ensures Pow77(m) <= Pow77(n)
    decreases n
  {
    if m < n {
      PowGrows(m, n - 1);
    }
  }

  /** Every byte of the key lies between two bounds. */
  ghost predicate Within(key: Text, lo: Byte, hi: Byte) {
    forall i :: 0 <= i < |key| ==> lo <= key[i] <= hi
  }

  lemma {:induction false} PolyInjective(a: Text, b: Text, lo: Byte, hi: Byte)
    requires |a| == |b| && Within(a, lo, hi) && Within(b, lo, hi) && hi as int - lo as int < 77
    requires Poly(a) == Poly(b)
    ensures a == b
    decreases |a|
  {
    if a != [] {
      var a', b' := a[..|a| - 1], b[..|b| - 1];
      assert lo <= a[|a| - 1] <= hi && lo <= b[|b| - 1] <= hi;
      PolyInjective(a', b', lo, hi);
      assert a == a' + [a[|a| - 1]] && b == b' + [b[|b| - 1]];
    }
  }

  /** Short keys of one length over the bytes `lo` to `hi` have different hashes. */
  ghost predicate Unique(lo: Byte, hi: Byte) {
    forall a: Text, b: Text ::
      |a| == |b| <= MAX_KEY_UNIQ && Within(a, lo, hi) && Within(b, lo, hi) && Hash(a) == Hash(b) ==> a == b
  }

  /** Exactly the alphabets of no more than 77 consecutive bytes are safe. */
  lemma AlphabetExact(lo: Byte, hi: Byte)
    requires lo <= hi
    ensures Unique(lo, hi) <==> hi as int - lo as int < 77
  {
    if hi as int - lo as int < 77 {
      forall a: Text, b: Text |
        |a| == |b| <= MAX_KEY_UNIQ && Within(a, lo, hi) && Within(b, lo, hi) && Hash(a) == Hash(b)
        ensures a == b
      {
        ShortInjective(a, b, lo, hi);
      }
    } else {
      Collide(lo);
      assert |[lo + 1, lo]| == |[lo, lo + 77]|;
      assert Within([lo + 1, lo], lo, hi) && Within([lo, lo + 77], lo, hi);
      assert [lo + 1, lo][0] != [lo, lo + 77][0];
    }
  }

  lemma ShortInjective(a: Text, b: Text, lo: Byte, hi: Byte)
    requires |a| == |b| <= MAX_KEY_UNIQ && Within(a, lo, hi) && Within(b, lo, hi) && hi as int - lo as int < 77
    requires lo <= hi && Hash(a) == Hash(b)
    ensures a == b
  {
    HashIsPoly(a);
    HashIsPoly(b);
    PolyBound(a);
    PolyBound(b);
    PowGrows(|a|, MAX_KEY_UNIQ);
    NinePowers();
    SameMod(Poly(a), Poly(b));
    PolyInjective(a, b, lo, hi);
  }

  lemma NinePowers()
    ensures 6 * Pow77(MAX_KEY_UNIQ) < WORD64
  {
    assert Pow77(3) == 456533;
    assert Pow77(6) == 456533 * Pow77(3);
    assert Pow77(9) == 456533 * Pow77(6);
  }

  lemma SameMod(x: int, y: int)
    requires x % WORD64 == y % WORD64 && x - y < WORD64 && y - x < WORD64
    ensures x == y
  {
  }

  /** The collision behind the bound, such as "az" with "b-". */
  lemma Collide(lo: Byte)
    requires lo as int + 77 < 256
    ensures Hash([lo + 1, lo]) == Hash([lo, lo + 77])
  {
    HashIsPoly([lo + 1, lo]);
    HashIsPoly([lo, lo + 77]);
    assert [lo + 1, lo][..1] == [lo + 1] && [lo, lo + 77][..1] == [lo];
    assert [lo + 1][..0] == [] && [lo][..0] == [];
    assert Poly([lo + 1]) == lo as int + 1 - 0x2d && Poly([lo]) == lo as int - 0x2d;
  }

  // ----- comparing keys

  /** strncmp says the first `n` bytes agree, up to a NUL. */
  function Same(a: Text, b: Text, n: nat): bool {
    if n == 0 then true
    else if Head(a) != Head(b) then false
    else if Head(a) == 0 then true
    else Same(a[1..], b[1..], n - 1)
  }

  lemma CStrNext(s: Text)
    requires s != []
    ensures CStr(s) == if s[0] == 0 then [] else [s[0]] + CStr(s[1..])
  {
  }

  lemma ConsSame(x: Byte, xs: Text, y: Byte, ys: Text)
    ensures [x] + xs == [y] + ys <==> x == y && xs == ys
  {
    if [x] + xs == [y] + ys {
      assert ([x] + xs)[0] == ([y] + ys)[0] && ([x] + xs)[1..] == ([y] + ys)[1..];
    }
  }

  lemma {:induction false} SameIs(a: Text, b: Text)
    requires |a| == |b|
    ensures Same(a, b, |a|) <==> CStr(a) == CStr(b)
    decreases |a|
  {
    hide CStr;
    if a == [] {
      assert a == b;
    } else {
      CStrNext(a);
      CStrNext(b);
      SameIs(a[1..], b[1..]);
      ConsSame(a[0], CStr(a[1..]), b[0], CStr(b[1..]));
    }
  }

  /** strncpy: the text up to a NUL, and NULs for the rest. */
  function Stored(key: Text): (s: Text)
    ensures |s| == |key|
  {
    CStr(key) + seq(|key| - |CStr(key)|, _ => 0)
  }

  /** The C string is the part up to the first NUL. */
  lemma EndsAt(s: Text, c: Text)
    requires c <= s && NulFree(c) && (|c| < |s| ==> s[|c|] == 0)
    ensures CStr(s) == c
  {
    hide CStr;
    var d := CStr(s);
    assert forall i :: 0 <= i < |c| ==> s[i] == c[i] && c[i] in c;
    assert forall i :: 0 <= i < |d| ==> s[i] == d[i] && d[i] in d;
    assert |c| == |d|;
  }

  /** What is stored of a key is the same C string. */
  lemma StoredIs(key: Text)
    ensures CStr(Stored(key)) == CStr(key)
  {
    EndsAt(Stored(key), CStr(key));
  }

  /** The test on a slot: equal hash and length, and for keys of more than nine bytes equal text. */
  predicate Matches(s: Slot<Text, Page>, key: Text, h: nat) {
    h == s.hash && |key| == |s.key| && (|key| <= MAX_KEY_UNIQ || Same(s.key, key, |key|))
  }

  /** What the test tells keys apart by: the length and the hash, and the text up to a NUL of a long key. */
  datatype Id = Short(len: nat, hash: nat) | Long(len: nat, hash: nat, text: Text)

  function IdBy(key: Text, h: nat): Id {
    if |key| <= MAX_KEY_UNIQ then Short(|key|, h) else Long(|key|, h, CStr(key))
  }

  function IdOf(key: Text): Id {
    IdBy(key, Hash(key))
  }

  ghost predicate SlotRight(s: Slot<Text, Page>, b: nat) {
    |s.key| <= MAX_KEY_LEN && b == BucketOf(s.hash, PAGE_BUCKET_SIZE)
  }

  /** The test finds exactly the keys of the same identity. */
  lemma MatchesIs(s: Slot<Text, Page>, key: Text)
    ensures Matches(s, key, Hash(key)) <==> IdBy(s.key, s.hash) == IdOf(key)
  {
    if |key| == |s.key| {
      SameIs(s.key, key);
    }
  }

  /** Keys the table tells apart: no NUL, and short ones within '-' to 'y'. */
  ghost predicate Good(key: Text) {
    NulFree(key) && (|key| <= MAX_KEY_UNIQ ==> Within(key, 0x2d, 0x79))
  }

  /** The identity of a good key is the key, so on good keys the table is a map. */
  lemma IdExact(a: Text, b: Text)
    requires Good(a) && Good(b)
    ensures IdOf(a) == IdOf(b) <==> a == b
  {
    if IdOf(a) == IdOf(b) && |a| <= MAX_KEY_UNIQ {
      ShortInjective(a, b, 0x2d, 0x79);
    }
  }

  /** With a 'z' the test confuses two keys: what is stored under "az" is found under "b-". */
  lemma Confused(v: Page)
    ensures var az, b_ := [97, 122], [98, 45];
            && az != b_ && Matches(Slot(az, Hash(az), v), b_, Hash(b_))
            && BucketOf(Hash(az), PAGE_BUCKET_SIZE) == BucketOf(Hash(b_), PAGE_BUCKET_SIZE)
  {
    var az: Text, b_: Text := [97, 122], [98, 45];
    HashIsPoly(az);
    HashIsPoly(b_);
    assert az[..1] == [97] && b_[..1] == [98] && az[..1][..0] == [] && b_[..1][..0] == [];
    assert Poly(az[..1]) == 52 && Poly(b_[..1]) == 53;
    assert az[0] != b_[0];
  }

  // ----- chains

  /** A chain with the identities of its keys. */
  ghost function Ids(chain: seq<Slot<Text, Page>>): (ids: seq<Slot<Id, Page>>)
    ensures |ids| == |chain|
  {
    seq(|chain|, i requires 0 <= i < |chain| => Slot(IdBy(chain[i].key, chain[i].hash), chain[i].hash, chain[i].value))
  }

  ghost predicate ChainRight(chain: seq<Slot<Text, Page>>, b: nat) {
    && (forall i :: 0 <= i < |chain| ==> SlotRight(chain[i], b))
    && Distinct(Ids(chain))
  }

  // ----- the table

  class Cache {
    const buckets: array<seq<Slot<Text, Page>>>

    ghost predicate Valid()
      reads buckets
    {
      buckets.Length == PAGE_BUCKET_SIZE && forall b :: 0 <= b < buckets.Length ==> ChainRight(buckets[b], b)
    }

    /** The map the table stands for, which gives keys of one identity one value. */
    ghost function Lookup(key: Text): Option<Page>
      requires Valid()
      reads buckets
    {
      Find(Ids(buckets[BucketOf(Hash(key), PAGE_BUCKET_SIZE)]), IdOf(key))
    }

    constructor ()
      ensures Valid() && fresh(buckets) && forall key :: Lookup(key) == None
    {
      buckets := new seq<Slot<Text, Page>>[PAGE_BUCKET_SIZE](_ => []);
    }

    /** The walk along a chain, until a slot passes the test. */
    method Walk(b: nat, key: Text, h: nat) returns (i: nat)
      requires Valid() && h == Hash(key) && b == BucketOf(h, PAGE_BUCKET_SIZE)
      ensures i <= |buckets[b]| && (i == |buckets[b]| <==> Lookup(key) == None)
      ensures i < |buckets[b]| ==> Ids(buckets[b])[i].key == IdOf(key) && Lookup(key) == Some(buckets[b][i].value)
    {
      hide Matches, BucketOf, Hash, IdOf, IdBy;
      var chain := buckets[b];
      i := 0;
      while i < |chain|
        invariant i <= |chain|
        invariant forall j :: 0 <= j < i ==> Ids(chain)[j].key != IdOf(key)
      {
        MatchesIs(chain[i], key);
        if Matches(chain[i], key, h) {
          FindAt(Ids(chain), i, IdOf(key));
          return;
        }
        i := i + 1;
      }
      FindNot(Ids(chain), IdOf(key));
    }

    /** cache_get and cache_root_get */
    method Get(key: Text) returns (v: Option<Page>)
      requires Valid()
      ensures v == Lookup(key)
    {
      var h := Hash(key);
      var b := BucketOf(h, PAGE_BUCKET_SIZE);
      var i := Walk(b, key, h);
      v := if i < |buckets[b]| then Some(buckets[b][i].value) else None;
    }

    /** bucket_set: replaces the value of the key, or puts a new slot in front. What was there comes back; a key that
        is too long is not stored and its value comes back. */
    method Set(key: Text, value: Page) returns (back: Option<Page>)
      requires Valid()
      modifies buckets
      ensures Valid()
      ensures |key| > MAX_KEY_LEN ==> back == Some(value) && forall k :: Lookup(k) == old(Lookup(k))
      ensures |key| <= MAX_KEY_LEN ==> back == old(Lookup(key))
      ensures |key| <= MAX_KEY_LEN ==>
                forall k :: Lookup(k) == if IdOf(k) == IdOf(key) then Some(value) else old(Lookup(k))
    {
      var h := Hash(key);
      var b := BucketOf(h, PAGE_BUCKET_SIZE);
      if MAX_KEY_LEN < |key| {
        return Some(value);
      }
      var i := Walk(b, key, h);
      var chain := buckets[b];
      ghost var id := IdOf(key);
      forall k | IdOf(k) == id
        ensures Hash(k) == h
      {
        SameHash(k, key);
      }
      hide BucketOf, Hash, IdOf, IdBy;
      if i < |chain| {
        back := Some(chain[i].value);
        buckets[b] := chain[i := chain[i].(value := value)];
        ChainReplaced(chain, i, value, b);
        FindAt(Ids(buckets[b]), i, id);
        forall k | IdOf(k) != id
          ensures Find(Ids(buckets[b]), IdOf(k)) == Find(Ids(chain), IdOf(k))
        {
          FindReplaced(Ids(chain), i, value, IdOf(k));
        }
      } else {
        back := None;
        buckets[b] := [Slot(Stored(key), h, value)] + chain;
        NotThere(Ids(chain), id);
        ChainFront(chain, key, value, b);
        forall k
          ensures Find(Ids(buckets[b]), IdOf(k)) == if IdOf(k) == id then Some(value) else Find(Ids(chain), IdOf(k))
        {
          FindFront(Slot(id, h, value), Ids(chain), IdOf(k));
        }
      }
    }

    /** agoo_page_remove: unlinks the slot of the page's path, a C string. */
    method Remove(path: Text)
      requires Valid()
      modifies buckets
      ensures Valid()
      ensures forall k :: Lookup(k) == if IdOf(k) == IdOf(CStr(path)) then None else old(Lookup(k))
    {
      var key := CStr(path);
      var h := Hash(key);
      var b := BucketOf(h, PAGE_BUCKET_SIZE);
      var i := Walk(b, key, h);
      var chain := buckets[b];
      ghost var id := IdOf(key);
      forall k | IdOf(k) == id
        ensures Hash(k) == h
      {
        SameHash(k, key);
      }
      hide BucketOf, Hash, IdOf, IdBy;
      if i < |chain| {
        ChainRemoved(chain, i, b);
        buckets[b] := chain[..i] + chain[i + 1..];
        forall k | IdOf(k) != id
          ensures Find(Ids(buckets[b]), IdOf(k)) == Find(Ids(chain), IdOf(k))
        {
          FindRemoved(Ids(chain), i, IdOf(k));
        }
      }
    }
  }

  lemma SameHash(a: Text, b: Text)
    requires IdOf(a) == IdOf(b)
    ensures Hash(a) == Hash(b)
  {
  }

  lemma ChainReplaced(chain: seq<Slot<Text, Page>>, i: nat, v: Page, b: nat)
    requires i < |chain| && ChainRight(chain, b)
    ensures var chain', ids := chain[i := chain[i].(value := v)], Ids(chain);
            && ChainRight(chain', b) && Ids(chain') == ids[i := ids[i].(value := v)]
            && forall j :: 0 <= j < i ==> Ids(chain')[j].key != ids[i].key
  {
    hide BucketOf, IdBy;
    var chain', ids := chain[i := chain[i].(value := v)], Ids(chain);
    assert Ids(chain') == ids[i := ids[i].(value := v)];
    assert forall j :: 0 <= j < |chain| ==> Ids(chain')[j].key == ids[j].key;
  }

  lemma ChainFront(chain: seq<Slot<Text, Page>>, key: Text, v: Page, b: nat)
    requires ChainRight(chain, b) && |key| <= MAX_KEY_LEN && b == BucketOf(Hash(key), PAGE_BUCKET_SIZE)
    requires forall j :: 0 <= j < |chain| ==> Ids(chain)[j].key != IdOf(key)
    ensures var s := Slot(Stored(key), Hash(key), v);
            ChainRight([s] + chain, b) && Ids([s] + chain) == [Slot(IdOf(key), Hash(key), v)] + Ids(chain)
  {
    hide Hash, BucketOf, Stored;
    var s := Slot(Stored(key), Hash(key), v);
    assert SlotRight(s, b);
    StoredIs(key);
    assert IdBy(s.key, s.hash) == IdOf(key);
    hide SlotRight, Distinct, IdBy, IdOf;
    IdsFront(s, chain);
    DistinctFront(Slot(IdOf(key), s.hash, v), Ids(chain));
    hide Ids;
    var chain' := [s] + chain;
    assert forall j :: 0 < j < |chain'| ==> chain'[j] == chain[j - 1];
  }

  lemma IdsFront(s: Slot<Text, Page>, chain: seq<Slot<Text, Page>>)
    ensures Ids([s] + chain) == [Slot(IdBy(s.key, s.hash), s.hash, s.value)] + Ids(chain)
  {
    hide IdBy;
  }

  /** Taking a slot out of a chain takes its identity out. */
  lemma ChainRemoved(chain: seq<Slot<Text, Page>>, i: nat, b: nat)
    requires i < |chain| && ChainRight(chain, b)
    ensures var chain', ids := chain[..i] + chain[i + 1..], Ids(chain);
            && ChainRight(chain', b) && Ids(chain') == ids[..i] + ids[i + 1..]
            && Find(Ids(chain'), ids[i].key) == None
  {
    hide SlotRight, IdBy;
    var chain', ids := chain[..i] + chain[i + 1..], Ids(chain);
    assert forall j :: 0 <= j < |chain'| ==> chain'[j] == if j < i then chain[j] else chain[j + 1];
    Removed(ids, i);
    assert Ids(chain') == ids[..i] + ids[i + 1..];
  }
}
