/** Chains of slots with a key, as the hash tables keep them in their buckets. */
module Chains {
  import opened Bytes
  import opened Wrappers

  const WORD64: nat := 0x1_0000_0000_0000_0000

  /** The bucket for a hash (get_bucketp in page.c and the same in graphql.c). */
  function BucketOf(h: nat, size: nat): (b: nat)
    requires 0 < size
    ensures b < size
  {
    XorBits(XorBits(h, h * 32 % WORD64, 64), h / 128, 64) % size
  }

  datatype Slot<K, V> = Slot(key: K, hash: nat, value: V)

  /** The value a chain holds for a key. */
  function Find<K(==), V>(chain: seq<Slot<K, V>>, key: K): Option<V> {
    if chain == [] then None
    else if chain[0].key == key then Some(chain[0].value)
    else Find(chain[1..], key)
  }

  lemma {:induction false} FindAt<K, V>(chain: seq<Slot<K, V>>, i: nat, key: K)
    requires i < |chain| && chain[i].key == key && forall j :: 0 <= j < i ==> chain[j].key != key
    ensures Find(chain, key) == Some(chain[i].value)
    decreases i
  {
    if i > 0 {
      FindAt(chain[1..], i - 1, key);
    }
  }

  lemma {:induction false} FindNot<K, V>(chain: seq<Slot<K, V>>, key: K)
    requires forall j :: 0 <= j < |chain| ==> chain[j].key != key
    ensures Find(chain, key) == None
    decreases |chain|
  {
    if chain != [] {
      FindNot(chain[1..], key);
    }
  }

  /** A slot put in front. */
  lemma FindFront<K, V>(s: Slot<K, V>, chain: seq<Slot<K, V>>, key: K)
    ensures Find([s] + chain, key) == if key == s.key then Some(s.value) else Find(chain, key)
  {
    assert ([s] + chain)[1..] == chain;
  }

  /** Another value in a slot only changes what its key finds. */
  lemma {:induction false} FindReplaced<K, V>(chain: seq<Slot<K, V>>, i: nat, v: V, key: K)
    requires i < |chain| && key != chain[i].key
    ensures Find(chain[i := chain[i].(value := v)], key) == Find(chain, key)
    decreases i
  {
    var more := chain[i := chain[i].(value := v)];
    if i == 0 {
      assert more[1..] == chain[1..];
    } else {
      assert more[1..] == chain[1..][i - 1 := chain[i].(value := v)];
      FindReplaced(chain[1..], i - 1, v, key);
    }
  }

  /** So does taking a slot out. */
  lemma {:induction false} FindRemoved<K, V>(chain: seq<Slot<K, V>>, i: nat, key: K)
    requires i < |chain| && key != chain[i].key
    ensures Find(chain[..i] + chain[i + 1..], key) == Find(chain, key)
    decreases i
  {
    var less := chain[..i] + chain[i + 1..];
    if i == 0 {
      assert less == chain[1..];
    } else {
      assert less[1..] == chain[1..][..i - 1] + chain[1..][i..];
      FindRemoved(chain[1..], i - 1, key);
    }
  }

  lemma {:induction false} NotThere<K, V>(chain: seq<Slot<K, V>>, key: K)
    requires Find(chain, key) == None
    ensures forall j :: 0 <= j < |chain| ==> chain[j].key != key
    decreases |chain|
  {
    if chain != [] {
      NotThere(chain[1..], key);
      assert forall j :: 0 < j < |chain| ==> chain[j] == chain[1..][j - 1];
    }
  }

  ghost predicate Distinct<K, V>(chain: seq<Slot<K, V>>) {
    forall i, j :: 0 <= i < j < |chain| ==> chain[i].key != chain[j].key
  }

  lemma DistinctFront<K, V>(s: Slot<K, V>, chain: seq<Slot<K, V>>)
    requires Distinct(chain) && forall j :: 0 <= j < |chain| ==> chain[j].key != s.key
    ensures Distinct([s] + chain)
  {
  }

  /** Taking a slot out leaves the others, and nothing under its key. */
  lemma Removed<K, V>(chain: seq<Slot<K, V>>, i: nat)
    requires i < |chain| && Distinct(chain)
    ensures var less := chain[..i] + chain[i + 1..];
            && Distinct(less) && Find(less, chain[i].key) == None
            && forall j :: 0 <= j < |less| ==> less[j] == if j < i then chain[j] else chain[j + 1]
  {
    var less := chain[..i] + chain[i + 1..];
    assert forall j :: 0 <= j < |less| ==> less[j] == if j < i then chain[j] else chain[j + 1];
    FindNot(less, chain[i].key);
  }
}
