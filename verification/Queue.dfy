/** The queue structure of queue.c, called from one thread: the array and its two cursors, changed in place. */
module Queue {
  import opened RingMemory

  class Queue {
    var slots: array<Ptr>
    var head: nat
    var tail: nat

    ghost function Memory(): Mem<Ptr>
      reads this, slots
    {
      Mem(slots[..], head, tail)
    }

    ghost predicate Valid()
      reads this, slots
    {
      Memory().Valid()
    }

    /** The head slot is empty, as every call leaves it. */
    ghost predicate Rested()
      requires Valid()
      reads this, slots
    {
      slots[head] == NULL
    }

    constructor (qsize: nat)
      ensures Valid() && Rested() && fresh(slots) && Memory() == InitMem(qsize)
    {
      var n := if qsize < 4 then 4 else qsize;
      slots := new Ptr[n](_ => NULL);
      head, tail := 0, 1;
      new;
      assert slots[..] == seq(n, _ => NULL);
    }

    /** A push when there is room; a push onto a full ring waits for a pop. */
    method Push(item: Ptr)
      requires Valid() && head != tail
      modifies this`tail, slots
      ensures Valid() && Memory() == Pushed(old(Memory()), item)
      ensures Memory().Items() == old(Memory().Items()) + [item] && (old(Rested()) ==> Rested())
    {
      slots[tail] := item;
      var next := tail + 1;
      if slots.Length <= next {
        next := 0;
      }
      tail := next;
    }

    method Pop() returns (item: Ptr)
      requires Valid()
      modifies this`head, slots
      ensures Valid() && (Memory(), item) == Popped(old(Memory()))
      ensures old(Rested()) ==> Rested()
      ensures old(Rested()) && old(Memory().Items()) == [] ==> item == NULL && Memory() == old(Memory())
      ensures old(Rested()) && old(Memory().Items()) != [] ==> old(Memory().Items()) == [item] + Memory().Items()
    {
      item := slots[head];
      if item != NULL {
        slots[head] := NULL;
        return;
      }
      var next := head + 1;
      if slots.Length <= next {
        next := 0;
      }
      if tail == next {
        return NULL;
      }
      head := next;
      item := slots[next];
      slots[next] := NULL;
    }

    predicate Empty()
      requires Valid()
      reads this, slots
      ensures Rested() ==> (Empty() <==> Memory().Items() == [])
    {
      var next := if slots.Length <= head + 1 then 0 else head + 1;
      slots[head] == NULL && tail == next
    }

    /** The count reads one more than the items held, and 0 for a full ring. */
    function Count(): (k: nat)
      requires Valid()
      reads this, slots
      ensures k == (|Memory().Items()| + 1) % slots.Length
    {
      ModOnce(tail - head + slots.Length, slots.Length);
      ModOnce(Memory().Size() + 1, slots.Length);
      (tail - head + slots.Length) % slots.Length
    }
  }
}
