/** What an agoo_log_flush that returns true says (log.c): its empty test is three loads, with the loggers and the
    writer at work between them. */
module LogFlush {
  import opened LogRing

  /** The tail counts the lines committed. */
  ghost predicate TailCounts(s: State)
    requires s.Valid()
  {
    |s.mem.slots| == QSIZE && s.mem.tail == (|s.logged| + 1) % QSIZE
  }

  /** What the writer has taken. */
  ghost function Taken(s: State): nat
    requires s.Valid()
  {
    |s.written| + |InHand(s.mem, s.writer)|
  }

  lemma TakenCounts(s: State)
    requires Inv(s)
    ensures |s.logged| == Taken(s) + s.mem.Size()
  {
  }

  lemma NextSlot(x: nat)
    ensures (x + 1) % QSIZE == if x % QSIZE + 1 >= QSIZE then 0 else x % QSIZE + 1
  {
  }

  /** No step takes a line back, or a commit. */
  lemma StepCounts(s: State, move: Move)
    requires Inv(s) && TailCounts(s)
    ensures var s' := Step(s, move); TailCounts(s') && s.logged <= s'.logged && Taken(s) <= Taken(s')
  {
    match move
    case Call(i, line) => if i < |s.callers| { CallCounts(s, i, line); }
    case Write(giveUp) => WriteCounts(s, giveUp);
    case Close =>
  }

  lemma CallCounts(s: State, i: nat, line: Line)
    requires Inv(s) && TailCounts(s) && i < |s.callers|
    ensures var s' := CallStep(s, i, line); TailCounts(s') && s.logged <= s'.logged && Taken(s) <= Taken(s')
  {
    NextSlot(|s.logged| + 1);
    assert CallerOk(s.mem, s.callers[i]);
    hide OneCaller, CallersOk, Accounted;
  }

  lemma WriteCounts(s: State, giveUp: bool)
    requires Inv(s) && TailCounts(s)
    ensures var s' := WriteStep(s, giveUp); TailCounts(s') && s.logged <= s'.logged && Taken(s) <= Taken(s')
  {
    hide OneCaller, CallersOk, Accounted;
  }

  lemma {:induction false} RunCounts(s: State, moves: seq<Move>)
    requires Inv(s) && TailCounts(s)
    ensures var s' := Run(s, moves);
            Inv(s') && TailCounts(s') && s.logged <= s'.logged && Taken(s) <= Taken(s')
    decreases |moves|
  {
    if moves != [] {
      StepInv(s, moves[0]);
      StepCounts(s, moves[0]);
      RunCounts(Step(s, moves[0]), moves[1..]);
    }
  }

  lemma HeadCounts(s: State)
    requires Inv(s) && TailCounts(s)
    ensures s.mem.head == Taken(s) % QSIZE
  {
    TakenCounts(s);
    hide Taken, Inv;
  }

  /** The empty test (lines 76-88): the head, its flag and the tail, as loaded in three states. */
  predicate Empty(atHead: State, atFlag: State, atTail: State)
    requires atHead.Valid() && atFlag.Valid() && atTail.Valid()
  {
    var h := atHead.mem.head;
    h < |atFlag.ready| && !atFlag.ready[h] && atTail.mem.tail == atTail.mem.After(atTail.mem.Slot(h))
  }

  /** What is known of the states of the three loads. */
  ghost predicate Later(s: State, s': State) {
    && Inv(s) && Inv(s') && TailCounts(s) && TailCounts(s')
    && s.logged <= s'.logged && Taken(s) <= Taken(s')
  }

  lemma Loads(callers: nat, first: seq<Move>, second: seq<Move>, third: seq<Move>)
    ensures var s1 := Run(Init(callers), first); var s2 := Run(s1, second);
            Later(s1, Run(s2, third)) && Inv(s2) && |s2.ready| == QSIZE
  {
    InitInv(callers);
    RunCounts(Init(callers), first);
    var s1 := Run(Init(callers), first);
    RunCounts(s1, second);
    RunCounts(Run(s1, second), third);
    hide Run, Init;
  }

  lemma EmptyWhen(s1: State, s2: State, s3: State)
    requires Later(s1, s3) && Inv(s2) && |s2.ready| == QSIZE
    ensures Empty(s1, s2, s3) <==> (s1.mem.Size() + |s3.logged| - |s1.logged|) % QSIZE == 0
  {
    HeadCounts(s1);
    TakenCounts(s1);
    NextSlot(|s3.logged|);
    NextSlot(s1.mem.head);
    assert s3.mem.Slot(s1.mem.head) == s1.mem.head;
    var x := Taken(s1);
    hide Taken;
    Congruent(x, |s3.logged|);
  }

  /** With any steps of the others between its loads, the test finds the ring empty exactly when the lines in the ring
      at the first load and those committed until the last are a multiple of the slots of the ring. */
  lemma EmptyExact(callers: nat, first: seq<Move>, second: seq<Move>, third: seq<Move>)
    ensures
      var s1 := Run(Init(callers), first);
      var s2 := Run(s1, second);
      var s3 := Run(s2, third);
      s1.logged <= s3.logged && (Empty(s1, s2, s3) <==> (s1.mem.Size() + |s3.logged| - |s1.logged|) % QSIZE == 0)
  {
    Loads(callers, first, second, third);
    hide Run, Init;
    var s1 := Run(Init(callers), first);
    var s2 := Run(s1, second);
    EmptyWhen(s1, s2, Run(s2, third));
  }

  lemma Congruent(x: nat, y: nat)
    requires x <= y
    ensures y % QSIZE == x % QSIZE <==> (y - x) % QSIZE == 0
  {
  }

  lemma FlushedWhen(s1: State, s3: State)
    requires Later(s1, s3) && s1.mem.Size() + |s3.logged| - |s1.logged| == 0
    ensures s3.logged == s1.logged && s3.mem.Size() == 0
    ensures s3.written == s3.logged <==> !s3.writer.Holding()
  {
    TakenCounts(s1);
    TakenCounts(s3);
    EmptyRing(s3);
  }

  /** When a flush ends because its test finds the ring empty, everything committed is written if and only if the
      writer is not at work on a line, unless a whole ring of lines was in the ring or was committed during the test.
      */
  lemma FlushExact(callers: nat, first: seq<Move>, second: seq<Move>, third: seq<Move>)
    ensures
      var s1 := Run(Init(callers), first);
      var s2 := Run(s1, second);
      var s3 := Run(s2, third);
      Empty(s1, s2, s3) && s1.mem.Size() + |s3.logged| - |s1.logged| < QSIZE ==>
        && s3.logged == s1.logged && s3.mem.Size() == 0
        && (s3.written == s3.logged <==> !s3.writer.Holding())
  {
    Loads(callers, first, second, third);
    hide Run, Init;
    var s1 := Run(Init(callers), first);
    var s2 := Run(s1, second);
    var s3 := Run(s2, third);
    EmptyWhen(s1, s2, s3);
    var n := s1.mem.Size() + |s3.logged| - |s1.logged|;
    if n % QSIZE == 0 && n < QSIZE {
      FlushedWhen(s1, s3);
    }
  }

  // ----- runs in which a flush leaves lines unwritten

  lemma RunOne(s: State, move: Move)
    requires s.Valid()
    ensures Run(s, [move]) == Step(s, move)
  {
    assert [move][1..] == [];
    assert Run(Step(s, move), []) == Step(s, move);
  }

  /** One thread that logs, and outside; the writer between two lines, `n` of them written and `more` in the ring. */
  ghost predicate Between(s: State, n: nat, more: nat) {
    && Inv(s) && s.callers == [Out] && !s.done && s.writer == TestDone
    && s.mem.Size() == more && |s.written| == n && |s.logged| == n + more
  }

  /** A line is logged. */
  lemma LogOne(s: State, n: nat, line: Line) returns (moves: seq<Move>)
    requires Between(s, n, 0)
    ensures Between(Run(s, moves), n, 1)
  {
    var enter := Call(0, line);
    StepInv(s, enter);
    var s1 := Step(s, enter);
    assert !s.lock && s1.callers == [Entering(line)];
    var rest := CallerFinishes(s1, 0);
    var s2 := Run(s1, rest);
    RunInv(s1, rest);
    StepInv(s2, enter);
    moves := [enter] + rest + [enter];
    RunAppend(s, [enter] + rest, [enter]);
    RunAppend(s, [enter], rest);
    RunOne(s, enter);
    RunOne(s2, enter);
    hide CallerOk, OneCaller;
    assert s2.logged + [] == s2.logged;
    TakenCounts(Step(s2, enter));
  }

  /** A line is taken and not written. */
  ghost predicate Held(s: State, n: nat) {
    && Inv(s) && s.callers == [Out] && !s.done && s.mem.Size() == 0
    && |s.written| == n && |s.logged| == n + 1
  }

  /** The writer takes it, */
  lemma TakeOne(s: State, n: nat)
    requires Between(s, n, 1)
    ensures Held(WriterRun(s, 6), n) && WriterRun(s, 6).writer.ReadCat?
  {
    var s1 := WriteStep(s, true);
    var s2 := WriteStep(s1, true);
    var s3 := WriteStep(s2, true);
    var s4 := WriteStep(s3, true);
    var s5 := WriteStep(s4, true);
    var s6 := WriteStep(s5, true);
    WriterRunInv(s, 6);
  }

  lemma {:induction false} WriterRunInv(s: State, n: nat)
    requires Inv(s)
    ensures Inv(WriterRun(s, n))
    decreases n
  {
    if n > 0 {
      WriteStepInv(s, true);
      WriterRunInv(WriteStep(s, true), n - 1);
    }
  }

  /** reads it, */
  lemma ReadOne(s: State, n: nat)
    requires Held(s, n) && s.writer.ReadCat?
    ensures Held(WriterRun(s, 4), n) && WriterRun(s, 4).writer.Emit?
  {
    WriterRunInv(s, 4);
    hide Inv;
    var s1 := WriteStep(s, true);
    var s2 := WriteStep(s1, true);
    var s3 := WriteStep(s2, true);
    var s4 := WriteStep(s3, true);
    assert WriterRun(s, 4) == s4;
  }

  /** and puts it out. */
  lemma PutOne(s: State, n: nat)
    requires Held(s, n) && s.writer.Emit?
    ensures Between(WriterRun(s, 2), n + 1, 0)
  {
    WriterRunInv(s, 2);
    hide Inv;
    var s1 := WriteStep(s, true);
    var s2 := WriteStep(s1, true);
    assert WriterRun(s, 2) == s2;
  }

  /** A line logged and taken, but not written. */
  lemma TakenOne(s: State, n: nat, line: Line) returns (moves: seq<Move>)
    requires Between(s, n, 0)
    ensures Held(Run(s, moves), n) && Run(s, moves).writer.ReadCat?
  {
    var log := LogOne(s, n, line);
    var s1 := Run(s, log);
    var take := WriterMoves(s1, 6);
    TakeOne(s1, n);
    moves := log + take;
    RunAppend(s, log, take);
  }

  lemma RestOne(s: State, n: nat) returns (moves: seq<Move>)
    requires Held(s, n) && s.writer.ReadCat?
    ensures Between(Run(s, moves), n + 1, 0)
  {
    ReadOne(s, n);
    var read := WriterMoves(s, 4);
    PutOne(Run(s, read), n);
    var put := WriterMoves(Run(s, read), 2);
    moves := read + put;
    RunAppend(s, read, put);
  }

  lemma {:induction false} Rounds(n: nat, line: Line) returns (moves: seq<Move>)
    ensures Between(Run(Init(1), moves), n, 0)
    decreases n
  {
    if n == 0 {
      InitInv(1);
      moves := [];
    } else {
      var before := Rounds(n - 1, line);
      var s := Run(Init(1), before);
      var one := TakenOne(s, n - 1, line);
      var put := RestOne(Run(s, one), n - 1);
      moves := before + (one + put);
      RunAppend(Init(1), before, one + put);
      RunAppend(s, one, put);
    }
  }

  /** The test finds the ring empty while the writer holds a line that is not written. */
  lemma FlushHolding(line: Line) returns (moves: seq<Move>)
    ensures var s := Run(Init(1), moves);
            Empty(s, s, s) && s.writer.Holding() && s.written == [] && |s.logged| == 1
  {
    var none := Rounds(0, line);
    var one := TakenOne(Run(Init(1), none), 0, line);
    moves := none + one;
    RunAppend(Init(1), none, one);
    var s := Run(Init(1), moves);
    assert Run(s, []) == s;
    EmptyExact(1, moves, [], []);
  }

  /** A whole ring of lines is logged between the loads of the head and the tail, and the test finds the ring empty with
      the last of them in it. */
  lemma FlushBehind(line: Line) returns (third: seq<Move>)
    ensures var s1 := Init(1);
            var s3 := Run(s1, third);
            Empty(s1, s1, s3) && s3.mem.Size() == 1 && |s3.logged| == QSIZE && |s3.written| == QSIZE - 1
  {
    var rounds := Rounds(QSIZE - 1, line);
    var s := Run(Init(1), rounds);
    var last := LogOne(s, QSIZE - 1, line);
    third := rounds + last;
    RunAppend(Init(1), rounds, last);
    assert Run(Init(1), []) == Init(1);
    EmptyExact(1, [], [], third);
  }

  /** The wait also ends when the log is closed (line 346), whatever is in the ring then. */
  lemma FlushClosed(line: Line) returns (moves: seq<Move>)
    ensures var s := Run(Init(1), moves); s.done && s.written == [] && |s.logged| == 1
  {
    var none := Rounds(0, line);
    var one := LogOne(Run(Init(1), none), 0, line);
    moves := none + one + [Close];
    RunAppend(Init(1), none, one);
    RunAppend(Init(1), none + one, [Close]);
    RunOne(Run(Init(1), none + one), Close);
  }
}
