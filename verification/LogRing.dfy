/** The log's ring (log.c) as interleaved steps: the queue's cursors, with entries filled and read in place.

    Any number of threads log, one shared access a step, and one thread writes the lines out.  A logger fills the
    fields of the tail slot one by one before it moves the tail; the writer reads the fields of the head slot one by
    one after it has moved the head there.
 */
module LogRing {
  import opened Bytes
  import opened RingMemory

  /** The content of an entry: `what` and `tid` stand for the text wherever it is stored. */
  datatype Line = Line(cat: nat, when: int, what: Text, tid: Text)

  const BLANK := Line(0, 0, [], [])

  const QSIZE: nat := 1024

  /** Where a thread stands in agoo_log_catv (lines 504-544). */
  datatype CallPc =
    | Out
    | Entering(line: Line)          // 510
    | LoadHead(line: Line)          // 527, the left operand
    | LoadTail(line: Line, h: nat)  // 527, the right operand and the test
    | LoadSlot(line: Line)          // 530
    | SetCat(line: Line, p: nat)    // 531, the call of set_entry (471-502)
    | SetWhen(line: Line, p: nat)
    | SetWhat(line: Line, p: nat)
    | SetTid(line: Line, p: nat)
    | StoreTail(line: Line, p: nat) // 532-536
    | Unlocking                     // 537
  {
    predicate Critical() { !Out? && !Entering? }

    /** A line is on its way that is not in the ring yet. */
    predicate Pending() { !Out? && !Unlocking? }

    /** What the next step puts into the ring. */
    function Commits(): seq<Line> { if StoreTail? then [line] else [] }
  }

  /** Where the writer stands in loop (lines 312-340), agoo_log_queue_empty (76-88) and agoo_log_queue_pop (117-147). */
  datatype WriterPc =
    | TestDone                       // 315
    | EmptyHead                      // 78
    | EmptyReady(h: nat)             // 84, the flag
    | EmptyTail(h: nat)              // 84, the tail
    | FirstLoad                      // 119
    | FirstReady(h: nat)             // 123
    | NextLoad                       // 126-129
    | TailTest(next: nat)            // 131
    | StoreHead(next: nat)           // 144
    | ReadCat(e: nat)                // 317-334, reading the entry
    | ReadWhen(e: nat, got: Line)
    | ReadWhat(e: nat, got: Line)
    | ReadTid(e: nat, got: Line)
    | Emit(e: nat, got: Line)
    | ClearReady(e: nat)             // 336
    | Stopped                        // 339
  {
    predicate Holding() { ReadCat? || ReadWhen? || ReadWhat? || ReadTid? || Emit? }
  }

  /** `logged` holds the lines in the order their entries were committed, `written` those the writer has put out. */
  datatype State = State(
    mem: Mem<Line>, ready: seq<bool>, done: bool, lock: bool, callers: seq<CallPc>, writer: WriterPc,
    logged: seq<Line>, written: seq<Line>)
  {
    ghost predicate Valid() { mem.Valid() && |ready| == |mem.slots| }
  }

  /** The next step of a logger, the next step of the writer, or agoo_log_close beginning (line 383). */
  datatype Move = Call(i: nat, line: Line) | Write(giveUp: bool) | Close

  function CallAction(m: Mem<Line>, pc: CallPc): (r: (Mem<Line>, CallPc))
    requires m.Valid() && pc.Critical()
    ensures r.0.Valid() && |r.0.slots| == |m.slots|
  {
    match pc
    case LoadHead(x) => (m, LoadTail(x, m.head))
    case LoadTail(x, h) => (m, if h == m.tail then LoadHead(x) else LoadSlot(x))
    case LoadSlot(x) => (m, SetCat(x, m.tail))
    case SetCat(x, p) => (m.Store(m.Slot(p), m.slots[m.Slot(p)].(cat := x.cat)), SetWhen(x, p))
    case SetWhen(x, p) => (m.Store(m.Slot(p), m.slots[m.Slot(p)].(when := x.when)), SetWhat(x, p))
    case SetWhat(x, p) => (m.Store(m.Slot(p), m.slots[m.Slot(p)].(what := x.what)), SetTid(x, p))
    case SetTid(x, p) => (m.Store(m.Slot(p), m.slots[m.Slot(p)].(tid := x.tid)), StoreTail(x, p))
    case StoreTail(x, p) => (m.(tail := m.After(m.Slot(p))), Unlocking)
    case Unlocking => (m, Out)
  }

  function CallStep(s: State, i: nat, line: Line): (s': State)
    requires s.Valid() && i < |s.callers|
    ensures s'.Valid()
  {
    match s.callers[i]
    case Out => if s.done then s else s.(callers := s.callers[i := Entering(line)])
    case Entering(x) => if s.lock then s else s.(lock := true, callers := s.callers[i := LoadHead(x)])
    case pc =>
      var (mem, pc') := CallAction(s.mem, pc);
      s.(mem := mem, callers := s.callers[i := pc'], lock := s.lock && !pc.Unlocking?,
         logged := s.logged + pc.Commits())
  }

  /** `giveUp` says whether the writer's wait times out when it finds the ring empty. */
  function WriteStep(s: State, giveUp: bool): (s': State)
    requires s.Valid()
    ensures s'.Valid() && s'.callers == s.callers && s'.done == s.done && s'.lock == s.lock && s'.logged == s.logged
  {
    var m := s.mem;
    match s.writer
    case TestDone => s.(writer := if s.done then EmptyHead else FirstLoad)
    case EmptyHead => s.(writer := EmptyReady(m.head))
    case EmptyReady(h) => s.(writer := if s.ready[m.Slot(h)] then FirstLoad else EmptyTail(h))
    case EmptyTail(h) => s.(writer := if m.tail == m.After(m.Slot(h)) then Stopped else FirstLoad)
    case FirstLoad => s.(writer := FirstReady(m.head))
    case FirstReady(h) => s.(writer := if s.ready[m.Slot(h)] then ReadCat(h) else NextLoad)
    case NextLoad => s.(writer := TailTest(m.After(m.head)))
    case TailTest(next) =>
      if m.tail != next then s.(writer := StoreHead(next)) else if giveUp then s.(writer := TestDone) else s
    case StoreHead(next) => s.(mem := m.(head := m.Slot(next)), writer := ReadCat(next))
    case ReadCat(e) => s.(writer := ReadWhen(e, BLANK.(cat := m.slots[m.Slot(e)].cat)))
    case ReadWhen(e, got) => s.(writer := ReadWhat(e, got.(when := m.slots[m.Slot(e)].when)))
    case ReadWhat(e, got) => s.(writer := ReadTid(e, got.(what := m.slots[m.Slot(e)].what)))
    case ReadTid(e, got) => s.(writer := Emit(e, got.(tid := m.slots[m.Slot(e)].tid)))
    case Emit(e, got) => s.(written := s.written + [got], writer := ClearReady(e))
    case ClearReady(e) => s.(ready := s.ready[m.Slot(e) := false], writer := TestDone)
    case Stopped => s
  }

  function Step(s: State, move: Move): (s': State)
    requires s.Valid()
    ensures s'.Valid()
  {
    match move
    case Call(i, line) => if i < |s.callers| then CallStep(s, i, line) else s
    case Write(giveUp) => WriteStep(s, giveUp)
    case Close => s.(done := true)
  }

  /** What agoo_log_init and agoo_log_start leave, with every thread outside. */
  function Init(callers: nat): (s: State)
    ensures s.Valid()
  {
    State(Mem(seq(QSIZE, _ => BLANK), 0, 1), seq(QSIZE, _ => false), false, false,
          seq(callers, _ => Out), TestDone, [], [])
  }

  ghost function Run(s: State, moves: seq<Move>): (s': State)
    requires s.Valid()
    ensures s'.Valid()
    decreases |moves|
  {
    if moves == [] then s else Run(Step(s, moves[0]), moves[1..])
  }

  // ----- the invariant

  /** What the logger past the wait knows: there is room, and which fields of the tail slot are its own. */
  ghost predicate CallerOk(m: Mem<Line>, pc: CallPc)
    requires m.Valid()
  {
    var tail := m.slots[m.tail];
    match pc
    case LoadTail(_, h) => h != m.tail ==> !m.Full()
    case LoadSlot(_) => !m.Full()
    case SetCat(_, p) => !m.Full() && p == m.tail
    case SetWhen(x, p) => !m.Full() && p == m.tail && tail.cat == x.cat
    case SetWhat(x, p) => !m.Full() && p == m.tail && tail.cat == x.cat && tail.when == x.when
    case SetTid(x, p) => !m.Full() && p == m.tail && tail == x.(tid := tail.tid)
    case StoreTail(x, p) => !m.Full() && p == m.tail && tail == x
    case _ => true
  }

  ghost predicate WriterOk(m: Mem<Line>, pc: WriterPc)
    requires m.Valid()
  {
    var head := m.slots[m.head];
    match pc
    case EmptyReady(h) => h == m.head
    case EmptyTail(h) => h == m.head
    case FirstReady(h) => h == m.head
    case TailTest(next) => next == m.After(m.head)
    case StoreHead(next) => next == m.After(m.head) && next != m.tail
    case ReadCat(e) => e == m.head
    case ReadWhen(e, got) => e == m.head && got.cat == head.cat
    case ReadWhat(e, got) => e == m.head && got.cat == head.cat && got.when == head.when
    case ReadTid(e, got) => e == m.head && got == head.(tid := got.tid)
    case Emit(e, got) => e == m.head && got == head
    case _ => true
  }

  /** The line the writer has taken and not put out. */
  ghost function InHand(m: Mem<Line>, pc: WriterPc): seq<Line>
    requires m.Valid()
  {
    if pc.Holding() then [m.slots[m.head]] else []
  }

  ghost predicate Accounted(s: State)
    requires s.Valid()
  {
    s.logged == s.written + InHand(s.mem, s.writer) + s.mem.Items()
  }

  /** One logger is past the lock exactly while the lock is taken. */
  ghost predicate OneCaller(callers: seq<CallPc>, lock: bool) {
    && (forall i, k :: 0 <= i < |callers| && 0 <= k < |callers| && callers[i].Critical() && callers[k].Critical()
              ==> i == k)
    && (lock <==> exists i :: 0 <= i < |callers| && callers[i].Critical())
  }

  ghost predicate CallersOk(m: Mem<Line>, callers: seq<CallPc>)
    requires m.Valid()
  {
    forall i :: 0 <= i < |callers| ==> CallerOk(m, callers[i])
  }

  ghost predicate NeverReady(ready: seq<bool>) {
    forall i :: 0 <= i < |ready| ==> !ready[i]
  }

  ghost predicate Inv(s: State) {
    && s.Valid() && NeverReady(s.ready) && OneCaller(s.callers, s.lock)
    && CallersOk(s.mem, s.callers) && WriterOk(s.mem, s.writer) && Accounted(s)
  }

  lemma CallActionItems(m: Mem<Line>, pc: CallPc)
    requires m.Valid() && pc.Critical() && CallerOk(m, pc)
    ensures CallAction(m, pc).0.Items() == m.Items() + pc.Commits()
  {
    var m' := CallAction(m, pc).0;
    if pc.StoreTail? {
      CommitTail(m);
    } else {
      assert m.Items() + [] == m.Items();
      if m' != m {
        SpareSlots(m, m.tail, m'.slots[m.tail]);
      }
    }
  }

  /** A logger writes no slot the writer reads, and its tail never meets the writer's next head. */
  lemma CallActionAside(m: Mem<Line>, pc: CallPc, writer: WriterPc)
    requires m.Valid() && pc.Critical() && CallerOk(m, pc) && WriterOk(m, writer)
    ensures var m' := CallAction(m, pc).0; WriterOk(m', writer) && InHand(m', writer) == InHand(m, writer)
  {
    var m' := CallAction(m, pc).0;
    assert m'.head == m.head && m'.slots[m.head] == m.slots[m.head];
    assert m'.tail == m.tail || m'.tail == m.After(m.tail) != m.After(m.head);
    hide CallAction, CallerOk;
  }

  lemma CallActionOk(m: Mem<Line>, pc: CallPc, writer: WriterPc)
    requires m.Valid() && pc.Critical() && CallerOk(m, pc) && WriterOk(m, writer)
    ensures
      var (m', pc') := CallAction(m, pc);
      && CallerOk(m', pc') && WriterOk(m', writer) && InHand(m', writer) == InHand(m, writer)
      && m'.Items() == m.Items() + pc.Commits()
  {
    CallActionItems(m, pc);
    CallActionAside(m, pc, writer);
    hide WriterOk, InHand, Mem.Items;
  }

  lemma OneCallerStep(s: State, i: nat, line: Line)
    requires s.Valid() && OneCaller(s.callers, s.lock) && i < |s.callers|
    ensures var s' := CallStep(s, i, line); OneCaller(s'.callers, s'.lock)
  {
    var s' := CallStep(s, i, line);
    var pc' := s'.callers[i];
    assert s'.callers == s.callers[i := pc'];
    OneCallerMoves(s.callers, i, pc', s.lock, s'.lock);
  }

  /** The step of one logger, which enters only a free lock and leaves it free. */
  lemma OneCallerMoves(callers: seq<CallPc>, i: nat, pc: CallPc, lock: bool, lock': bool)
    requires OneCaller(callers, lock) && i < |callers|
    requires if callers[i].Critical() || !lock then lock' == pc.Critical() else lock' == lock && !pc.Critical()
    ensures OneCaller(callers[i := pc], lock')
  {
    var callers' := callers[i := pc];
    assert callers'[i] == pc && forall k :: 0 <= k < |callers| && k != i ==> callers'[k] == callers[k];
  }

  lemma CallStepInv(s: State, i: nat, line: Line)
    requires Inv(s) && i < |s.callers|
    ensures Inv(CallStep(s, i, line))
  {
    OneCallerStep(s, i, line);
    hide OneCaller;
    var pc := s.callers[i];
    var s' := CallStep(s, i, line);
    if pc.Critical() {
      CallActionOk(s.mem, pc, s.writer);
      OthersOut(s, i);
      assert s'.logged == s'.written + InHand(s'.mem, s'.writer) + s'.mem.Items();
    }
  }

  lemma OthersOut(s: State, i: nat)
    requires s.Valid() && OneCaller(s.callers, s.lock) && i < |s.callers| && s.callers[i].Critical()
    ensures forall m: Mem<Line>, k :: m.Valid() && 0 <= k < |s.callers| && k != i ==> CallerOk(m, s.callers[k])
  {
  }

  /** A step of the writer takes nothing from a logger at work. */
  lemma WriteStepCallers(s: State, giveUp: bool, pc: CallPc)
    requires s.Valid() && WriterOk(s.mem, s.writer) && CallerOk(s.mem, pc)
    ensures CallerOk(WriteStep(s, giveUp).mem, pc)
  {
  }

  lemma WriteStepInv(s: State, giveUp: bool)
    requires Inv(s)
    ensures Inv(WriteStep(s, giveUp))
  {
    hide OneCaller;
    var s' := WriteStep(s, giveUp);
    forall i | 0 <= i < |s.callers|
      ensures CallerOk(s'.mem, s.callers[i])
    {
      WriteStepCallers(s, giveUp, s.callers[i]);
    }
    WriteStepOk(s, giveUp);
    WriteStepAccounts(s, giveUp);
  }

  lemma WriteStepOk(s: State, giveUp: bool)
    requires s.Valid() && NeverReady(s.ready) && WriterOk(s.mem, s.writer)
    ensures var s' := WriteStep(s, giveUp); NeverReady(s'.ready) && WriterOk(s'.mem, s'.writer)
  {
  }

  /** Taking the oldest line into the hand, and putting it out. */
  lemma Regroup(written: seq<Line>, line: Line, items: seq<Line>)
    ensures written + [] + ([line] + items) == written + [line] + items
    ensures written + [line] + [] + items == written + [line] + items
  {
  }

  /** Any other step of the writer moves no line. */
  lemma WriteStepQuiet(s: State, giveUp: bool)
    requires s.Valid() && NeverReady(s.ready) && WriterOk(s.mem, s.writer)
    requires !s.writer.StoreHead? && !s.writer.Emit?
    ensures
      var s' := WriteStep(s, giveUp);
      s'.mem == s.mem && s'.written == s.written && InHand(s.mem, s'.writer) == InHand(s.mem, s.writer)
  {
  }

  lemma WriteStepAccounts(s: State, giveUp: bool)
    requires s.Valid() && NeverReady(s.ready) && WriterOk(s.mem, s.writer) && Accounted(s)
    ensures Accounted(WriteStep(s, giveUp))
  {
    var m := s.mem;
    if s.writer.StoreHead? {
      ReleaseHead(m);
      Regroup(s.written, m.slots[m.After(m.head)], m.(head := m.After(m.head)).Items());
    } else if s.writer.Emit? {
      Regroup(s.written, s.writer.got, m.Items());
    } else {
      WriteStepQuiet(s, giveUp);
      hide WriteStep, WriterOk, NeverReady;
    }
  }

  lemma StepInv(s: State, move: Move)
    requires Inv(s)
    ensures Inv(Step(s, move))
  {
    match move
    case Call(i, line) => if i < |s.callers| { CallStepInv(s, i, line); }
    case Write(giveUp) => WriteStepInv(s, giveUp);
    case Close =>
  }

  lemma {:induction false} RunInv(s: State, moves: seq<Move>)
    requires Inv(s)
    ensures Inv(Run(s, moves))
    decreases |moves|
  {
    if moves != [] {
      StepInv(s, moves[0]);
      RunInv(Step(s, moves[0]), moves[1..]);
    }
  }

  lemma InitInv(callers: nat)
    ensures Inv(Init(callers))
  {
    var s := Init(callers);
    assert s.mem.Items() == [];
  }

  // ----- what the log keeps

  /** Over every interleaving the lines written are the lines committed, whole and in order, up to the line in the
      writer's hands and those in the ring, which are at most one less than its slots; the flag that would make the
      writer put a line out twice is never set; and what the writer is about to put out is the next line. */
  lemma Untorn(callers: nat, moves: seq<Move>)
    ensures
      var s := Run(Init(callers), moves);
      && s.logged == s.written + InHand(s.mem, s.writer) + s.mem.Items()
      && s.mem.Size() < |s.mem.slots|
      && (forall i :: 0 <= i < |s.ready| ==> !s.ready[i])
      && (s.writer.Emit? ==> s.written + [s.writer.got] <= s.logged)
  {
    InitInv(callers);
    RunInv(Init(callers), moves);
  }

  /** With the ring empty, the writer's hands are all that is left. */
  lemma EmptyRing(s: State)
    requires Inv(s) && s.mem.tail == s.mem.After(s.mem.head)
    ensures s.written == s.logged <==> !s.writer.Holding()
  {
    assert s.mem.Items() == [];
    assert |s.logged| == |s.written| + |InHand(s.mem, s.writer)|;
    if !s.writer.Holding() {
      assert s.logged == s.written + [] + [] == s.written;
    }
  }

  // ----- closing

  /** The steps the writer takes at most once the log is closed and no line is added. */
  ghost function WorkLeft(s: State): nat
    requires s.Valid()
  {
    var size := s.mem.Size();
    20 * size + match s.writer
                case Stopped => 0
                case StoreHead(_) => 1
                case TailTest(_) => if size == 0 then 16 else 2
                case NextLoad => if size == 0 then 17 else 3
                case FirstReady(_) => if size == 0 then 18 else 4
                case FirstLoad => if size == 0 then 19 else 5
                case EmptyTail(_) => 6
                case EmptyReady(_) => 7
                case EmptyHead => 8
                case TestDone => 9
                case ClearReady(_) => 10
                case Emit(_, _) => 11
                case ReadTid(_, _) => 12
                case ReadWhat(_, _) => 13
                case ReadWhen(_, _) => 14
                case ReadCat(_) => 15
  }

  lemma WorkGoesOn(s: State)
    requires Inv(s) && s.done && !s.writer.Stopped?
    ensures WorkLeft(WriteStep(s, true)) < WorkLeft(s)
    ensures WriteStep(s, true).writer.Stopped? ==> s.mem.Size() == 0 && WriteStep(s, true).mem == s.mem
  {
  }

  /** n steps of the writer, which gives up waiting whenever it may. */
  ghost function WriterRun(s: State, n: nat): (s': State)
    requires s.Valid()
    ensures s'.Valid()
    decreases n
  {
    if n == 0 then s else WriterRun(WriteStep(s, true), n - 1)
  }

  /** Left alone, the writer of a closed log puts out every line of the ring and stops. */
  lemma {:induction false} WriterDrains(s: State)
    requires Inv(s) && s.done && !s.writer.Stopped?
    ensures
      var s' := WriterRun(s, WorkLeft(s));
      && Inv(s') && s'.writer.Stopped? && s'.mem.Size() == 0 && s'.written == s.logged
      && s'.logged == s.logged && s'.callers == s.callers && s'.lock == s.lock && s'.done
    decreases WorkLeft(s)
  {
    var s1 := WriteStep(s, true);
    WriteStepInv(s, true);
    WorkGoesOn(s);
    if s1.writer.Stopped? {
      StoppedStays(s1, WorkLeft(s) - 1);
      EmptyRing(s1);
    } else {
      WriterDrains(s1);
      WriterRunLonger(s1, WorkLeft(s1), WorkLeft(s) - 1);
    }
  }

  lemma {:induction false} StoppedStays(s: State, n: nat)
    requires s.Valid() && s.writer.Stopped?
    ensures WriterRun(s, n) == s
    decreases n
  {
    if n > 0 {
      StoppedStays(s, n - 1);
    }
  }

  lemma {:induction false} WriterRunLonger(s: State, k: nat, n: nat)
    requires s.Valid() && k <= n && WriterRun(s, k).writer.Stopped?
    ensures WriterRun(s, n) == WriterRun(s, k)
    decreases n
  {
    if k == 0 {
      StoppedStays(s, n);
    } else {
      WriterRunLonger(WriteStep(s, true), k - 1, n - 1);
    }
  }

  // a closed log with no line on its way

  /** Once no line is on its way and the log is closed, none is added, and the writer stops only on an empty ring. */
  ghost predicate Closing(s: State) {
    && Inv(s) && s.done && (forall i :: 0 <= i < |s.callers| ==> !s.callers[i].Pending())
    && (s.writer.Stopped? ==> s.mem.Size() == 0)
  }

  lemma ClosingStep(s: State, move: Move)
    requires Closing(s)
    ensures Closing(Step(s, move)) && Step(s, move).logged == s.logged
  {
    StepInv(s, move);
    if move.Call? && move.i < |s.callers| {
      assert s.logged + [] == s.logged;
    }
  }

  lemma {:induction false} ClosingRun(s: State, moves: seq<Move>)
    requires Closing(s)
    ensures Closing(Run(s, moves)) && Run(s, moves).logged == s.logged
    decreases |moves|
  {
    if moves != [] {
      ClosingStep(s, moves[0]);
      ClosingRun(Step(s, moves[0]), moves[1..]);
    }
  }

  // a closed log with a line on its way

  ghost function CallLeft(m: Mem<Line>, pc: CallPc): nat {
    match pc
    case Entering(_) => 12
    case LoadTail(_, h) => if h == m.tail then 11 else 9
    case LoadHead(_) => 10
    case LoadSlot(_) => 8
    case SetCat(_, _) => 7
    case SetWhen(_, _) => 6
    case SetWhat(_, _) => 5
    case SetTid(_, _) => 4
    case StoreTail(_, _) => 3
    case _ => 0
  }

  /** A logger commits its line to an empty ring, whatever the writer is at. */
  lemma {:induction false} CallerFinishes(s: State, i: nat) returns (moves: seq<Move>)
    requires Inv(s) && s.mem.Size() == 0 && i < |s.callers|
    requires s.callers[i].Pending() && (s.callers[i].Critical() || !s.lock)
    ensures var s' := Run(s, moves);
            && s'.writer == s.writer && s'.written == s.written && |s'.logged| == |s.logged| + 1
            && s'.done == s.done && s'.callers == s.callers[i := Unlocking]
    decreases CallLeft(s.mem, s.callers[i])
  {
    var move := Call(i, BLANK);
    var s1 := Step(s, move);
    CallStepInv(s, i, BLANK);
    if s.callers[i].StoreTail? {
      moves := [move];
      assert Run(s1, []) == s1;
    } else {
      assert s1.callers[i := Unlocking] == s.callers[i := Unlocking];
      assert s1.mem.Size() == 0 && s1.logged == s.logged + [] == s.logged;
      var rest := CallerFinishes(s1, i);
      moves := [move] + rest;
      assert moves[1..] == rest;
    }
  }

  lemma {:induction false} WriterMoves(s: State, n: nat) returns (moves: seq<Move>)
    requires s.Valid()
    ensures Run(s, moves) == WriterRun(s, n)
    decreases n
  {
    if n == 0 {
      moves := [];
    } else {
      var rest := WriterMoves(WriteStep(s, true), n - 1);
      moves := [Write(true)] + rest;
      assert moves[1..] == rest;
    }
  }

  lemma {:induction false} RunAppend(s: State, a: seq<Move>, b: seq<Move>)
    requires s.Valid()
    ensures Run(s, a + b) == Run(Run(s, a), b)
    decreases |a|
  {
    if a == [] {
      assert a + b == b;
    } else {
      RunAppend(Step(s, a[0]), a[1..], b);
      assert (a + b)[1..] == a[1..] + b;
    }
  }

  /** The logger to blame: the one past the lock, if there is one, and else the one at the lock. */
  lemma LineLost(s: State, i: nat) returns (moves: seq<Move>)
    requires Inv(s) && s.writer.Stopped? && s.mem.Size() == 0 && s.written == s.logged
    requires i < |s.callers| && s.callers[i].Pending()
    ensures var s' := Run(s, moves); s'.writer.Stopped? && s'.written != s'.logged
  {
    if s.callers[i].Critical() || !s.lock {
      moves := CallerFinishes(s, i);
    } else {
      var k :| 0 <= k < |s.callers| && s.callers[k].Critical();
      if s.callers[k].Unlocking? {
        var move := Call(k, BLANK);
        CallStepInv(s, k, BLANK);
        assert s.logged + [] == s.logged;
        var rest := CallerFinishes(Step(s, move), i);
        moves := [move] + rest;
        assert moves[1..] == rest;
      } else {
        moves := CallerFinishes(s, k);
      }
    }
  }

  /** Every schedule from here that stops the writer has written every line. */
  ghost predicate Complete(s: State)
    requires s.Valid()
  {
    forall moves :: Run(s, moves).writer.Stopped? ==> Run(s, moves).written == Run(s, moves).logged
  }

  lemma CompleteExact(s: State)
    requires Inv(s) && s.done && !s.writer.Stopped?
    ensures Complete(s) <==> forall i :: 0 <= i < |s.callers| ==> !s.callers[i].Pending()
  {
    if i :| 0 <= i < |s.callers| && s.callers[i].Pending() {
      WriterDrains(s);
      var drain := WriterMoves(s, WorkLeft(s));
      var lose := LineLost(Run(s, drain), i);
      RunAppend(s, drain, lose);
      assert Run(s, drain + lose).writer.Stopped?;
    } else {
      forall moves | Run(s, moves).writer.Stopped?
        ensures Run(s, moves).written == Run(s, moves).logged
      {
        ClosingRun(s, moves);
        EmptyRing(Run(s, moves));
      }
    }
  }

  /** Whatever the schedule, a writer that has stopped after the log was closed has put out every line ever committed,
      just if no call was between its test of `done` and its commit when the log was closed. */
  lemma CloseExact(callers: nat, moves: seq<Move>)
    ensures
      var s := Run(Init(callers), moves + [Close]);
      !s.writer.Stopped? ==> (Complete(s) <==> forall i :: 0 <= i < |s.callers| ==> !s.callers[i].Pending())
  {
    InitInv(callers);
    RunInv(Init(callers), moves + [Close]);
    RunAppend(Init(callers), moves, [Close]);
    var s := Run(Init(callers), moves + [Close]);
    assert s == Run(Step(Run(Init(callers), moves), Close), []);
    if !s.writer.Stopped? {
      CompleteExact(s);
    }
  }
}
