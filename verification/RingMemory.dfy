/** The memory of the ring of queue.c and log.c: slots, the head and tail cursors, and the items they hold.

    One slot is always spare: the slot at `head` is the one the last pop took.  The committed items are the slots
    strictly between `head` and `tail`, cyclically; `head == tail` means that every other slot is taken.
 */
module RingMemory {

  /** A queue item is an address; 0 is the null address. */
  type Ptr = nat

  const NULL: Ptr := 0

  datatype Mem<T> = Mem(slots: seq<T>, head: nat, tail: nat) {
    ghost predicate Valid() {
      4 <= |slots| && head < |slots| && tail < |slots|
    }

    predicate Full() { head == tail }

    /** The cursor after `i`, back to the first slot at the end of the ring. */
    function After(i: nat): (next: nat)
      requires i < |slots|
      ensures next < |slots|
      ensures next != i || |slots| == 1
    {
      if |slots| <= i + 1 then 0 else i + 1
    }

    /** The number of committed items. */
    function Size(): (k: nat)
      requires Valid()
      ensures k < |slots|
      ensures k == |slots| - 1 <==> Full()
      ensures k == 0 <==> tail == After(head)
    {
      if head < tail then tail - head - 1 else tail - head - 1 + |slots|
    }

    /** The slot of the k-th committed item. */
    function Cursor(k: nat): (i: nat)
      requires Valid() && k <= Size()
      ensures i < |slots|
      ensures k < Size() ==> i != head && (i == tail ==> Full())
    {
      if head + 1 + k < |slots| then head + 1 + k else head + 1 + k - |slots|
    }

    /** The committed items, oldest first. */
    ghost function Items(): (items: seq<T>)
      requires Valid()
      ensures |items| == Size()
    {
      seq(Size(), k requires 0 <= k < Size() => slots[Cursor(k)])
    }

    /** A cursor into the ring; a cursor is never out of it. */
    function Slot(i: nat): (p: nat)
      requires 0 < |slots|
      ensures p < |slots|
      ensures i < |slots| ==> p == i
    {
      if i < |slots| then i else 0
    }

    function Store(i: nat, p: T): Mem<T>
      requires i < |slots|
    {
      this.(slots := slots[i := p])
    }
  }

  /** What agoo_queue_multi_init leaves. */
  function InitMem(qsize: nat): (m: Mem<Ptr>)
    ensures m.Valid() && m.Items() == []
    ensures |m.slots| == if qsize < 4 then 4 else qsize
  {
    var n := if qsize < 4 then 4 else qsize;
    Mem(seq(n, _ => NULL), 0, 1)
  }

  /** Writing the tail slot of a queue with room, or the head slot of any queue, leaves every committed item alone. */
  lemma SpareSlots<T>(m: Mem<T>, i: nat, p: T)
    requires m.Valid()
    requires i == m.head || (i == m.tail && !m.Full())
    ensures m.Store(i, p).Valid() && m.Store(i, p).Items() == m.Items()
  {
    var m' := m.Store(i, p);
    assert m'.Size() == m.Size();
    forall k | 0 <= k < m.Size()
      ensures m'.Items()[k] == m.Items()[k]
    {
      assert m.Cursor(k) == m'.Cursor(k);
    }
  }

  /** Moving the tail on commits the item in its slot, after all the others. */
  lemma CommitTail<T>(m: Mem<T>)
    requires m.Valid() && !m.Full()
    ensures m.(tail := m.After(m.tail)).Items() == m.Items() + [m.slots[m.tail]]
  {
    var m' := m.(tail := m.After(m.tail));
    assert m'.Size() == m.Size() + 1;
    assert m'.Cursor(m.Size()) == m.tail;
    forall k | 0 <= k < m.Size()
      ensures m'.Items()[k] == m.Items()[k]
    {
      assert m.Cursor(k) == m'.Cursor(k);
    }
  }

  /** Moving the head on takes the oldest item out. */
  lemma ReleaseHead<T>(m: Mem<T>)
    requires m.Valid() && m.After(m.head) != m.tail
    ensures m.Items() == [m.slots[m.After(m.head)]] + m.(head := m.After(m.head)).Items()
  {
    var m' := m.(head := m.After(m.head));
    assert m.Size() == m'.Size() + 1;
    assert m.Cursor(0) == m.After(m.head);
    forall k | 0 <= k < m'.Size()
      ensures m.Items()[k + 1] == m'.Items()[k]
    {
      assert m.Cursor(k + 1) == m'.Cursor(k);
    }
  }

  /** A whole push onto a ring with room. */
  function Pushed(m: Mem<Ptr>, p: Ptr): (m': Mem<Ptr>)
    requires m.Valid()
    ensures m'.Valid() && |m'.slots| == |m.slots|
    ensures !m.Full() ==> m'.Items() == m.Items() + [p]
  {
    if m.Full() then m
    else
      SpareSlots(m, m.tail, p);
      CommitTail(m.Store(m.tail, p));
      m.Store(m.tail, p).(tail := m.After(m.tail))
  }

  /** A whole pop: the memory after, and the item, or the null address when the wait times out. */
  function Popped(m: Mem<Ptr>): (r: (Mem<Ptr>, Ptr))
    requires m.Valid()
    ensures r.0.Valid() && |r.0.slots| == |m.slots|
    ensures m.slots[m.head] == NULL ==> r.0.slots[r.0.head] == NULL
    ensures m.slots[m.head] == NULL && m.Items() == [] ==> r == (m, NULL)
    ensures m.slots[m.head] == NULL && m.Items() != [] ==> m.Items() == [r.1] + r.0.Items()
  {
    var next := m.After(m.head);
    if m.slots[m.head] != NULL then (m.Store(m.head, NULL), m.slots[m.head])
    else if next == m.tail then (m, NULL)
    else
      ReleaseHead(m);
      SpareSlots(m.(head := next), next, NULL);
      (m.(head := next).Store(next, NULL), m.slots[next])
  }

  lemma ModOnce(a: nat, n: nat)
    requires 0 < n && a < 2 * n
    ensures a % n == if a < n then a else a - n
  {
    if n <= a {
      assert a == n * 1 + (a - n);
    }
  }
}
