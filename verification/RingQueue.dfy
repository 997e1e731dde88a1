/** The ring queue of queue.c as interleaved steps: any number of pushers and poppers, one shared access a step.

    `multiPush` and `multiPop` choose the two spin locks.  Without a lock the source allows one caller at a time,
    which is the guard on beginning a call here.  An item is any address, the null one included.
 */
module RingQueue {
  import opened RingMemory

  /** Where a thread stands in agoo_queue_push (lines 77-98). */
  datatype PushPc =
    | Idle
    | Locking(item: Ptr)             // 81
    | LoadHead(item: Ptr)            // 86, the left operand
    | LoadTail(item: Ptr, h: nat)    // 86, the right operand and the test
    | LoadSlot(item: Ptr)            // 89, which slot to write
    | WriteSlot(item: Ptr, p: nat)   // 89
    | LoadNext(item: Ptr)            // 90-94
    | StoreTail(item: Ptr, t: nat)   // 95
    | Unlocking                      // 96-98
  {
    predicate Critical() { !Idle? && !Locking? }
  }

  /** Where a thread stands in agoo_queue_pop (lines 113-160). */
  datatype PopPc =
    | Resting
    | Acquiring                            // 119
    | FirstLoad                            // 123, the head
    | FirstRead(h: nat)                    // 123, the slot
    | ClearLoad(item: Ptr)                 // 126, which slot to clear
    | ClearWrite(item: Ptr, h: nat)        // 126
    | ClearReturn(item: Ptr)               // 127-130
    | NextLoad                             // 132-136
    | TailTest(next: nat)                  // 138
    | StoreHead(next: nat)                 // 154
    | TakeSlot(next: nat)                  // 155
    | WipeSlot(next: nat, item: Ptr)       // 156
    | Returning(item: Ptr)                 // 157-160
    | GivingUp                             // 142-145
  {
    predicate Critical() { !Resting? && !Acquiring? }

    /** In the branch for an item left in the head slot (lines 125-131). */
    predicate InFirstBranch() { ClearLoad? || ClearWrite? || ClearReturn? }
  }

  /** The ring with the calls' histories: the items in the order their pushes committed, and in the order they
      were returned. */
  datatype Ring = Ring(mem: Mem<Ptr>, pushed: seq<Ptr>, popped: seq<Ptr>)

  /** One step of the pusher that is past the lock. */
  function PushAction(r: Ring, pc: PushPc): (r': (Ring, PushPc))
    requires r.mem.Valid() && pc.Critical()
    ensures r'.0.mem.Valid() && |r'.0.mem.slots| == |r.mem.slots|
  {
    var m := r.mem;
    match pc
    case LoadHead(x) => (r, LoadTail(x, m.head))
    case LoadTail(x, h) => (r, if h == m.tail then LoadHead(x) else LoadSlot(x))
    case LoadSlot(x) => (r, WriteSlot(x, m.tail))
    case WriteSlot(x, p) => (r.(mem := m.Store(m.Slot(p), x)), LoadNext(x))
    case LoadNext(x) => (r, StoreTail(x, m.After(m.tail)))
    case StoreTail(x, t) => (r.(mem := m.(tail := m.Slot(t)), pushed := r.pushed + [x]), Unlocking)
    case Unlocking => (r, Idle)
  }

  /** One step of the popper that is past the lock; `giveUp` says whether the wait times out when it tests empty. */
  function PopAction(r: Ring, pc: PopPc, giveUp: bool): (r': (Ring, PopPc))
    requires r.mem.Valid() && pc.Critical()
    ensures r'.0.mem.Valid() && |r'.0.mem.slots| == |r.mem.slots|
  {
    var m := r.mem;
    match pc
    case FirstLoad => (r, FirstRead(m.head))
    case FirstRead(h) =>
      var x := m.slots[m.Slot(h)];
      (r, if x != NULL then ClearLoad(x) else NextLoad)
    case ClearLoad(x) => (r, ClearWrite(x, m.head))
    case ClearWrite(x, h) => (r.(mem := m.Store(m.Slot(h), NULL)), ClearReturn(x))
    case ClearReturn(x) => (r.(popped := r.popped + [x]), Resting)
    case NextLoad => (r, TailTest(m.After(m.head)))
    case TailTest(next) => (r, if m.tail != next then StoreHead(next) else if giveUp then GivingUp else pc)
    case StoreHead(next) => (r.(mem := m.(head := m.Slot(next))), TakeSlot(next))
    case TakeSlot(next) => (r, WipeSlot(next, m.slots[m.Slot(next)]))
    case WipeSlot(next, x) => (r.(mem := m.Store(m.Slot(next), NULL)), Returning(x))
    case Returning(x) => (r.(popped := r.popped + [x]), Resting)
    case GivingUp => (r, Resting)
  }

  // ----- one pusher and one popper at work

  /** What the pusher past the wait knows: there is room, and how far it has got. */
  ghost predicate PusherOk(m: Mem<Ptr>, pc: PushPc)
    requires m.Valid()
  {
    match pc
    case LoadTail(_, h) => h != m.tail ==> !m.Full()
    case LoadSlot(_) => !m.Full()
    case WriteSlot(_, p) => !m.Full() && p == m.tail
    case LoadNext(x) => !m.Full() && m.slots[m.tail] == x
    case StoreTail(x, t) => !m.Full() && m.slots[m.tail] == x && t == m.After(m.tail)
    case _ => true
  }

  ghost predicate PopperOk(m: Mem<Ptr>, pc: PopPc)
    requires m.Valid()
  {
    && !pc.InFirstBranch()
    && (!pc.TakeSlot? && !pc.WipeSlot? ==> m.slots[m.head] == NULL)
    && match pc
       case FirstRead(h) => h == m.head
       case TailTest(next) => next == m.After(m.head)
       case StoreHead(next) => next == m.After(m.head) && next != m.tail
       case TakeSlot(next) => next == m.head
       case WipeSlot(next, x) => next == m.head && m.slots[m.head] == x
       case _ => true
  }

  /** What the popper has taken out of the ring and not returned. */
  ghost function InHand(m: Mem<Ptr>, pc: PopPc): seq<Ptr>
    requires m.Valid()
  {
    if pc.TakeSlot? || pc.WipeSlot? then [m.slots[m.head]]
    else if pc.Returning? then [pc.item]
    else []
  }

  /** Every item pushed is returned, in the popper's hands, or committed, in that order. */
  ghost predicate Accounted(r: Ring, pc: PopPc)
    requires r.mem.Valid()
  {
    r.pushed == r.popped + InHand(r.mem, pc) + r.mem.Items()
  }

  ghost predicate RingInv(r: Ring, pushPc: PushPc, popPc: PopPc) {
    r.mem.Valid() && PusherOk(r.mem, pushPc) && PopperOk(r.mem, popPc) && Accounted(r, popPc)
  }

  lemma PushActionInv(r: Ring, pushPc: PushPc, popPc: PopPc)
    requires RingInv(r, pushPc, popPc) && pushPc.Critical()
    ensures var (r', pc') := PushAction(r, pushPc); RingInv(r', pc', popPc)
  {
    var m := r.mem;
    var (r', pc') := PushAction(r, pushPc);
    if pushPc.WriteSlot? {
      SpareSlots(m, m.tail, pushPc.item);
      assert InHand(r'.mem, popPc) == InHand(m, popPc);
    } else if pushPc.StoreTail? {
      CommitTail(m);
      assert InHand(r'.mem, popPc) == InHand(m, popPc);
    } else {
      assert r' == r;
    }
  }

  /** A step of the popper that leaves the memory alone. */
  lemma PopActionQuiet(r: Ring, pushPc: PushPc, popPc: PopPc, giveUp: bool)
    requires RingInv(r, pushPc, popPc) && popPc.Critical() && !popPc.StoreHead? && !popPc.WipeSlot?
    ensures var (r', pc') := PopAction(r, popPc, giveUp); RingInv(r', pushPc, pc')
  {
    assert PopAction(r, popPc, giveUp).0.mem == r.mem;
    hide PusherOk;
  }

  lemma PopActionInv(r: Ring, pushPc: PushPc, popPc: PopPc, giveUp: bool)
    requires RingInv(r, pushPc, popPc) && popPc.Critical()
    ensures var (r', pc') := PopAction(r, popPc, giveUp); RingInv(r', pushPc, pc')
  {
    var m := r.mem;
    var (r', pc') := PopAction(r, popPc, giveUp);
    if popPc.StoreHead? {
      ReleaseHead(m);
      assert InHand(m, popPc) == [] && InHand(r'.mem, pc') == [m.slots[m.After(m.head)]];
    } else if popPc.WipeSlot? {
      SpareSlots(m, m.head, NULL);
    } else {
      PopActionQuiet(r, pushPc, popPc, giveUp);
    }
  }

  // ----- any number of threads

  datatype State = State(
    ring: Ring, multiPush: bool, multiPop: bool, pushLock: bool, popLock: bool,
    pushers: seq<PushPc>, poppers: seq<PopPc>)

  /** The next step of a thread; `item` is what an idle pusher begins to push. */
  datatype Move = Push(i: nat, item: Ptr) | Pop(j: nat, giveUp: bool)

  function Step(s: State, move: Move): (s': State)
    requires s.ring.mem.Valid()
    ensures |s'.ring.mem.slots| == |s.ring.mem.slots|
  {
    match move
    case Push(i, item) => if i < |s.pushers| then PushStep(s, i, item) else s
    case Pop(j, giveUp) => if j < |s.poppers| then PopStep(s, j, giveUp) else s
  }

  function PushStep(s: State, i: nat, item: Ptr): State
    requires s.ring.mem.Valid() && i < |s.pushers|
  {
    match s.pushers[i]
    case Idle =>
      if s.multiPush then s.(pushers := s.pushers[i := Locking(item)])
      else if forall k :: 0 <= k < |s.pushers| ==> s.pushers[k].Idle? then s.(pushers := s.pushers[i := LoadHead(item)])
      else s
    case Locking(x) => if s.pushLock then s else s.(pushLock := true, pushers := s.pushers[i := LoadHead(x)])
    case pc =>
      var (ring, pc') := PushAction(s.ring, pc);
      s.(ring := ring, pushers := s.pushers[i := pc'], pushLock := s.pushLock && !(s.multiPush && pc'.Idle?))
  }

  function PopStep(s: State, j: nat, giveUp: bool): State
    requires s.ring.mem.Valid() && j < |s.poppers|
  {
    match s.poppers[j]
    case Resting =>
      if s.multiPop then s.(poppers := s.poppers[j := Acquiring])
      else if forall k :: 0 <= k < |s.poppers| ==> s.poppers[k].Resting? then s.(poppers := s.poppers[j := FirstLoad])
      else s
    case Acquiring => if s.popLock then s else s.(popLock := true, poppers := s.poppers[j := FirstLoad])
    case pc =>
      var (ring, pc') := PopAction(s.ring, pc, giveUp);
      s.(ring := ring, poppers := s.poppers[j := pc'], popLock := s.popLock && !(s.multiPop && pc'.Resting?))
  }

  /** The pusher past the lock, if there is one. */
  ghost function ActivePush(pcs: seq<PushPc>): (pc: PushPc)
    ensures pc.Critical() || pc == Idle
    ensures (forall i :: 0 <= i < |pcs| ==> !pcs[i].Critical()) ==> pc == Idle
  {
    if i :| 0 <= i < |pcs| && pcs[i].Critical() then pcs[i] else Idle
  }

  ghost function ActivePop(pcs: seq<PopPc>): (pc: PopPc)
    ensures pc.Critical() || pc == Resting
    ensures (forall i :: 0 <= i < |pcs| ==> !pcs[i].Critical()) ==> pc == Resting
  {
    if i :| 0 <= i < |pcs| && pcs[i].Critical() then pcs[i] else Resting
  }

  ghost predicate OneCriticalPush(pcs: seq<PushPc>) {
    forall i, k :: 0 <= i < |pcs| && 0 <= k < |pcs| && pcs[i].Critical() && pcs[k].Critical() ==> i == k
  }

  ghost predicate OneCriticalPop(pcs: seq<PopPc>) {
    forall j, k :: 0 <= j < |pcs| && 0 <= k < |pcs| && pcs[j].Critical() && pcs[k].Critical() ==> j == k
  }

  /** At most one pusher is past the lock, and the lock is taken while it is. */
  ghost predicate OnePusher(s: State) {
    && OneCriticalPush(s.pushers)
    && (forall i :: 0 <= i < |s.pushers| ==>
          if s.multiPush then s.pushers[i].Critical() ==> s.pushLock else !s.pushers[i].Locking?)
  }

  ghost predicate OnePopper(s: State) {
    && OneCriticalPop(s.poppers)
    && (forall j :: 0 <= j < |s.poppers| ==>
          if s.multiPop then s.poppers[j].Critical() ==> s.popLock else !s.poppers[j].Acquiring?)
  }

  ghost predicate Inv(s: State) {
    OnePusher(s) && OnePopper(s) && RingInv(s.ring, ActivePush(s.pushers), ActivePop(s.poppers))
  }

  /** A step of thread i, when no other pusher is past the lock, leaves i the only candidate. */
  lemma ActivePushMoves(pcs: seq<PushPc>, i: nat, pc: PushPc)
    requires i < |pcs| && forall k :: 0 <= k < |pcs| && k != i ==> !pcs[k].Critical()
    ensures ActivePush(pcs) == if pcs[i].Critical() then pcs[i] else Idle
    ensures ActivePush(pcs[i := pc]) == if pc.Critical() then pc else Idle
    ensures OneCriticalPush(pcs[i := pc])
  {
    var pcs' := pcs[i := pc];
    assert pcs'[i] == pc && forall k :: 0 <= k < |pcs| && k != i ==> !pcs'[k].Critical();
  }

  lemma ActivePopMoves(pcs: seq<PopPc>, j: nat, pc: PopPc)
    requires j < |pcs| && forall k :: 0 <= k < |pcs| && k != j ==> !pcs[k].Critical()
    ensures ActivePop(pcs) == if pcs[j].Critical() then pcs[j] else Resting
    ensures ActivePop(pcs[j := pc]) == if pc.Critical() then pc else Resting
    ensures OneCriticalPop(pcs[j := pc])
  {
    var pcs' := pcs[j := pc];
    assert pcs'[j] == pc && forall k :: 0 <= k < |pcs| && k != j ==> !pcs'[k].Critical();
  }

  /** A step that stays before the lock changes nothing for the others. */
  lemma ActivePushStays(pcs: seq<PushPc>, i: nat, pc: PushPc)
    requires i < |pcs| && OneCriticalPush(pcs) && !pcs[i].Critical() && !pc.Critical()
    ensures ActivePush(pcs[i := pc]) == ActivePush(pcs) && OneCriticalPush(pcs[i := pc])
  {
    var pcs' := pcs[i := pc];
    assert forall k :: 0 <= k < |pcs| ==> pcs[k].Critical() == pcs'[k].Critical();
    assert forall k :: 0 <= k < |pcs| && pcs[k].Critical() ==> pcs'[k] == pcs[k];
  }

  lemma ActivePopStays(pcs: seq<PopPc>, j: nat, pc: PopPc)
    requires j < |pcs| && OneCriticalPop(pcs) && !pcs[j].Critical() && !pc.Critical()
    ensures ActivePop(pcs[j := pc]) == ActivePop(pcs) && OneCriticalPop(pcs[j := pc])
  {
    var pcs' := pcs[j := pc];
    assert forall k :: 0 <= k < |pcs| ==> pcs[k].Critical() == pcs'[k].Critical();
    assert forall k :: 0 <= k < |pcs| && pcs[k].Critical() ==> pcs'[k] == pcs[k];
  }

  /** Entering needs the lock or an empty house; so a thread at work there is alone. */
  lemma PusherAlone(s: State, i: nat, item: Ptr)
    requires OnePusher(s) && s.ring.mem.Valid() && i < |s.pushers|
    requires s.pushers[i].Critical() || PushStep(s, i, item).pushers[i].Critical()
    ensures forall k :: 0 <= k < |s.pushers| && k != i ==> !s.pushers[k].Critical()
  {
  }

  lemma PopperAlone(s: State, j: nat, giveUp: bool)
    requires OnePopper(s) && s.ring.mem.Valid() && j < |s.poppers|
    requires s.poppers[j].Critical() || PopStep(s, j, giveUp).poppers[j].Critical()
    ensures forall k :: 0 <= k < |s.poppers| && k != j ==> !s.poppers[k].Critical()
  {
  }

  lemma PushStepInv(s: State, i: nat, item: Ptr)
    requires Inv(s) && i < |s.pushers|
    ensures Inv(PushStep(s, i, item))
  {
    var pc := s.pushers[i];
    var s' := PushStep(s, i, item);
    var pc' := s'.pushers[i];
    if pc.Critical() {
      PusherAlone(s, i, item);
      ActivePushMoves(s.pushers, i, pc');
      PushActionInv(s.ring, pc, ActivePop(s.poppers));
    } else if pc'.Critical() {
      PusherAlone(s, i, item);
      ActivePushMoves(s.pushers, i, pc');
    } else {
      ActivePushStays(s.pushers, i, pc');
    }
    assert s'.pushers == s.pushers[i := pc'];
  }

  lemma PopStepInv(s: State, j: nat, giveUp: bool)
    requires Inv(s) && j < |s.poppers|
    ensures Inv(PopStep(s, j, giveUp))
  {
    if s.poppers[j].Critical() {
      CriticalPopInv(s, j, giveUp);
    } else {
      hide PopAction;
      EnteringPopInv(s, j, giveUp);
    }
  }

  lemma CriticalPopInv(s: State, j: nat, giveUp: bool)
    requires Inv(s) && j < |s.poppers| && s.poppers[j].Critical()
    ensures Inv(PopStep(s, j, giveUp))
  {
    var pc := s.poppers[j];
    PopperAlone(s, j, giveUp);
    ActivePopMoves(s.poppers, j, pc);
    PopActionInv(s.ring, ActivePush(s.pushers), pc, giveUp);
    hide RingInv, PopAction, OneCriticalPop, OneCriticalPush;
    var (ring, pc') := PopAction(s.ring, pc, giveUp);
    assert s.poppers[j := pc] == s.poppers;
    ActivePopMoves(s.poppers, j, pc');
    RestingPop(ring, ActivePush(s.pushers), pc');
  }

  /** The popper that has left counts as resting. */
  lemma RestingPop(r: Ring, pushPc: PushPc, popPc: PopPc)
    requires RingInv(r, pushPc, popPc)
    ensures RingInv(r, pushPc, if popPc.Critical() then popPc else Resting)
  {
  }

  lemma EnteringPopInv(s: State, j: nat, giveUp: bool)
    requires Inv(s) && j < |s.poppers| && !s.poppers[j].Critical()
    ensures Inv(PopStep(s, j, giveUp))
  {
    hide PopAction;
    var pc := s.poppers[j];
    var s' := PopStep(s, j, giveUp);
    var pc' := s'.poppers[j];
    assert s'.poppers == s.poppers[j := pc'];
    if pc'.Critical() {
      PopperAlone(s, j, giveUp);
      ActivePopMoves(s.poppers, j, pc');
    } else {
      ActivePopStays(s.poppers, j, pc');
    }
  }

  lemma StepInv(s: State, move: Move)
    requires Inv(s)
    ensures Inv(Step(s, move))
  {
    match move
    case Push(i, item) => if i < |s.pushers| { PushStepInv(s, i, item); }
    case Pop(j, giveUp) => if j < |s.poppers| { PopStepInv(s, j, giveUp); }
  }

  // ----- every run

  /** What agoo_queue_multi_init leaves, with every thread outside the queue. */
  ghost function Init(qsize: nat, multiPush: bool, multiPop: bool, pushers: nat, poppers: nat): (s: State)
    ensures Inv(s)
  {
    State(Ring(InitMem(qsize), [], []), multiPush, multiPop, false, false,
          seq(pushers, _ => Idle), seq(poppers, _ => Resting))
  }

  ghost function Run(s: State, moves: seq<Move>): (s': State)
    requires s.ring.mem.Valid()
    decreases |moves|
  {
    if moves == [] then s
    else Run(Step(s, moves[0]), moves[1..])
  }

  /** A run keeps the invariant, and the size of the ring. */
  lemma {:induction false} RunInv(s: State, moves: seq<Move>)
    requires Inv(s)
    ensures Inv(Run(s, moves)) && |Run(s, moves).ring.mem.slots| == |s.ring.mem.slots|
    decreases |moves|
  {
    if moves != [] {
      StepInv(s, moves[0]);
      RunInv(Step(s, moves[0]), moves[1..]);
    }
  }

  /** First in, first out, over every interleaving: the items returned, then the item in a popper's hands if there
      is one, then the committed slots, are the items pushed, in order; the ring holds at most one less than its
      size; and with every popper outside the queue the head slot is empty. */
  lemma Fifo(qsize: nat, multiPush: bool, multiPop: bool, pushers: nat, poppers: nat, moves: seq<Move>)
    ensures
      var s := Run(Init(qsize, multiPush, multiPop, pushers, poppers), moves);
      var r := s.ring;
      && r.mem.Valid()
      && (exists hand: seq<Ptr> :: |hand| <= 1 && r.pushed == r.popped + hand + r.mem.Items())
      && r.mem.Size() <= (if qsize < 4 then 4 else qsize) - 1
      && ((forall j :: 0 <= j < |s.poppers| ==> s.poppers[j].Resting?) ==>
            r.pushed == r.popped + r.mem.Items() && r.mem.slots[r.mem.head] == NULL)
  {
    RunInv(Init(qsize, multiPush, multiPop, pushers, poppers), moves);
    var s := Run(Init(qsize, multiPush, multiPop, pushers, poppers), moves);
    var hand := InHand(s.ring.mem, ActivePop(s.poppers));
    assert s.ring.pushed == s.ring.popped + hand + s.ring.mem.Items();
    if forall j :: 0 <= j < |s.poppers| ==> s.poppers[j].Resting? {
      assert s.ring.popped + hand == s.ring.popped;
    }
  }

  /** What the caller of a pop relies on. */
  ghost predicate PopperMeets(s: State, j: nat)
    requires s.ring.mem.Valid() && j < |s.poppers|
  {
    var pc := s.poppers[j];
    && !pc.InFirstBranch()
    && (pc.Returning? ==> s.ring.popped + [pc.item] <= s.ring.pushed)
    && (pc.TailTest? && PopStep(s, j, true).poppers[j].GivingUp? ==> s.ring.mem.Items() == [])
  }

  ghost predicate PusherMeets(s: State, i: nat)
    requires s.ring.mem.Valid() && i < |s.pushers|
  {
    var pc := s.pushers[i];
    var m := s.ring.mem;
    pc.WriteSlot? ==> pc.p < |m.slots| && pc.p != m.head && forall k :: 0 <= k < m.Size() ==> m.Cursor(k) != pc.p
  }

  lemma PopperMeetsIt(s: State, j: nat)
    requires Inv(s) && j < |s.poppers|
    ensures PopperMeets(s, j)
  {
    if s.poppers[j].Critical() {
      PopperAlone(s, j, true);
      ActivePopMoves(s.poppers, j, s.poppers[j]);
    }
  }

  lemma PusherMeetsIt(s: State, i: nat)
    requires Inv(s) && i < |s.pushers|
    ensures PusherMeets(s, i)
  {
    if s.pushers[i].Critical() {
      PusherAlone(s, i, 0);
      ActivePushMoves(s.pushers, i, s.pushers[i]);
    }
  }

  /** In every reachable state: a pop returns the oldest item not returned before; the branch for an item left in
      the head slot is never entered; a pop gives up only on an empty queue; and a push writes only a slot that
      holds no item waiting to be popped or being popped. */
  lemma ReachableThreads(qsize: nat, multiPush: bool, multiPop: bool, pushers: nat, poppers: nat, moves: seq<Move>)
    ensures
      var s := Run(Init(qsize, multiPush, multiPop, pushers, poppers), moves);
      && s.ring.mem.Valid()
      && (forall j :: 0 <= j < |s.poppers| ==> PopperMeets(s, j))
      && (forall i :: 0 <= i < |s.pushers| ==> PusherMeets(s, i))
  {
    RunInv(Init(qsize, multiPush, multiPop, pushers, poppers), moves);
    var s := Run(Init(qsize, multiPush, multiPop, pushers, poppers), moves);
    forall j | 0 <= j < |s.poppers|
      ensures PopperMeets(s, j)
    {
      PopperMeetsIt(s, j);
    }
    forall i | 0 <= i < |s.pushers|
      ensures PusherMeets(s, i)
    {
      PusherMeetsIt(s, i);
    }
  }

  /** The critical sections exclude, by lock or by the single caller. */
  lemma Exclusion(qsize: nat, multiPush: bool, multiPop: bool, pushers: nat, poppers: nat, moves: seq<Move>)
    ensures
      var s := Run(Init(qsize, multiPush, multiPop, pushers, poppers), moves);
      OneCriticalPush(s.pushers) && OneCriticalPop(s.poppers)
  {
    RunInv(Init(qsize, multiPush, multiPop, pushers, poppers), moves);
  }

  // ----- a call that is not interrupted

  /** Up to k steps of one thread with no other between them. */
  function PushSteps(r: Ring, pc: PushPc, k: nat): (Ring, PushPc)
    requires r.mem.Valid()
    decreases k
  {
    if k == 0 || !pc.Critical() then (r, pc)
    else
      var (r', pc') := PushAction(r, pc);
      PushSteps(r', pc', k - 1)
  }

  function PopSteps(r: Ring, pc: PopPc, k: nat): (Ring, PopPc)
    requires r.mem.Valid()
    decreases k
  {
    if k == 0 || !pc.Critical() then (r, pc)
    else
      var (r', pc') := PopAction(r, pc, true);
      PopSteps(r', pc', k - 1)
  }

  /** On its own, the code past the push lock does to a ring with room what Pushed says, in eight steps. */
  lemma UninterruptedPush(r: Ring, item: Ptr)
    requires r.mem.Valid() && !r.mem.Full()
    ensures PushSteps(r, LoadHead(item), 8) == (Ring(Pushed(r.mem, item), r.pushed + [item], r.popped), Idle)
  {
    hide Mem.Items, Mem.Cursor, Mem.Size;
    var r' := r.(mem := r.mem.Store(r.mem.tail, item));
    assert PushSteps(r, LoadSlot(item), 6) == PushSteps(r', LoadNext(item), 4);
    assert PushSteps(r', LoadNext(item), 4) ==
           PushSteps(Ring(Pushed(r.mem, item), r.pushed + [item], r.popped), Unlocking, 2);
  }

  lemma QuietPop(r: Ring)
    requires r.mem.Valid() && r.mem.slots[r.mem.head] != NULL
    ensures
      var m := r.mem;
      var x := m.slots[m.head];
      PopSteps(r, FirstLoad, 9) == (Ring(m.Store(m.head, NULL), r.pushed, r.popped + [x]), Resting)
  {
    var m := r.mem;
    var x := m.slots[m.head];
    var r1 := r.(mem := m.Store(m.head, NULL));
    assert PopSteps(r, FirstLoad, 9) == PopSteps(r, FirstRead(m.head), 8) == PopSteps(r, ClearLoad(x), 7);
    assert PopSteps(r, ClearLoad(x), 7) == PopSteps(r, ClearWrite(x, m.head), 6) == PopSteps(r1, ClearReturn(x), 5);
  }

  lemma EmptyPop(r: Ring)
    requires r.mem.Valid() && r.mem.slots[r.mem.head] == NULL && r.mem.tail == r.mem.After(r.mem.head)
    ensures PopSteps(r, FirstLoad, 9) == (r, Resting)
  {
    var m := r.mem;
    assert PopSteps(r, FirstLoad, 9) == PopSteps(r, FirstRead(m.head), 8) == PopSteps(r, NextLoad, 7);
    assert PopSteps(r, NextLoad, 7) == PopSteps(r, TailTest(m.tail), 6) == PopSteps(r, GivingUp, 5);
  }

  lemma PopNext(r: Ring, pc: PopPc, k: nat)
    requires r.mem.Valid() && pc.Critical() && k > 0
    ensures var (r', pc') := PopAction(r, pc, true); PopSteps(r, pc, k) == PopSteps(r', pc', k - 1)
    ensures PopSteps(r, Resting, k) == (r, Resting)
  {
  }

  /** The end of a pop, once the wait is over. */
  lemma TakeNext(r: Ring, next: nat)
    requires r.mem.Valid() && next < |r.mem.slots|
    ensures
      PopSteps(r, StoreHead(next), 5)
      == (Ring(r.mem.(head := next).Store(next, NULL), r.pushed, r.popped + [r.mem.slots[next]]), Resting)
  {
    hide Mem.Items, PopSteps;
    var x := r.mem.slots[next];
    var r1 := r.(mem := r.mem.(head := next));
    var r2 := r.(mem := r1.mem.Store(next, NULL));
    PopNext(r, StoreHead(next), 5);
    PopNext(r1, TakeSlot(next), 4);
    PopNext(r1, WipeSlot(next, x), 3);
    PopNext(r2, Returning(x), 2);
    PopNext(r2.(popped := r.popped + [x]), FirstLoad, 1);
  }

  lemma TakingPop(r: Ring)
    requires r.mem.Valid() && r.mem.slots[r.mem.head] == NULL && r.mem.tail != r.mem.After(r.mem.head)
    ensures
      var m := r.mem;
      var next := m.After(m.head);
      PopSteps(r, FirstLoad, 9)
      == (Ring(m.(head := next).Store(next, NULL), r.pushed, r.popped + [m.slots[next]]), Resting)
  {
    var m := r.mem;
    var next := m.After(m.head);
    assert PopSteps(r, FirstLoad, 9) == PopSteps(r, FirstRead(m.head), 8) == PopSteps(r, NextLoad, 7);
    assert PopSteps(r, NextLoad, 7) == PopSteps(r, TailTest(next), 6) == PopSteps(r, StoreHead(next), 5);
    TakeNext(r, next);
  }

  /** The code past the pop lock, on its own and with no patience, returns what Popped says. */
  lemma UninterruptedPop(r: Ring)
    requires r.mem.Valid()
    ensures
      var (mem, item) := Popped(r.mem);
      PopSteps(r, FirstLoad, 9) == (Ring(mem, r.pushed, if mem == r.mem then r.popped else r.popped + [item]), Resting)
  {
    var m := r.mem;
    if m.slots[m.head] != NULL {
      QuietPop(r);
      assert Popped(m).0.slots[m.head] == NULL;
    } else if m.tail == m.After(m.head) {
      EmptyPop(r);
    } else {
      TakingPop(r);
    }
  }
}
