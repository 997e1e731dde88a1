/** Publishing to every connection loop and counting the references to upgraded connections (server.c, pub.c, con.c,
    upgraded.c, rupgraded.c, rserver.c), as a machine in which publishers, loops and request handlers take turns. */
module FanOut {
  import opened Wrappers

  datatype Kind = Message | Write | Subscribe | Unsubscribe | Close

  /** A publication: its number, who publishes it, the upgraded connection it is about, if any, and the subject of a
      message or the pattern of a subscription; an unsubscribe without one takes all. */
  datatype Pub = Pub(id: nat, from: nat, kind: Kind, up: Option<nat>, subject: Option<nat>)

  /** A publisher part way through agoo_server_publish: the loop it comes to next, and the copy made for it. */
  datatype Out = Idle | Out(pub: Pub, at: nat, copied: bool)

  /** The number of loops, the loop each connection belongs to, the patterns it starts with, and which pattern covers
      which subject. */
  datatype Config = Config(loops: nat, home: seq<nat>, subs: seq<seq<nat>>, covers: (nat, nat) -> bool)

  datatype State = State(
    outs: seq<Out>,              // by publisher
    queues: seq<seq<Pub>>,       // by loop
    hands: seq<seq<Pub>>,        // what each loop has popped, one at most
    worked: seq<bool>,           // and has acted on
    ref: seq<int>,               // by upgraded connection, from here on
    attached: seq<bool>,         // the connection still points at it
    subs: seq<seq<nat>>,         // the patterns it is subscribed to
    handles: seq<nat>,           // references the application has in hand
    reqs: seq<nat>,              // requests queued or being handled
    lost: seq<nat>,              // references whose holder went without giving them back
    destroyed: seq<nat>,         // how often destroy was called
    delivered: seq<seq<Pub>>,    // the responses appended for it
    issued: seq<seq<Pub>>,       // by publisher: all it has published
    processed: seq<seq<Pub>>)    // by loop: all it has acted on

  ghost predicate Shaped(c: Config, s: State) {
    var ups := |c.home|;
    && c.loops > 0 && (forall u :: 0 <= u < ups ==> c.home[u] < c.loops)
    && |s.queues| == |s.hands| == |s.worked| == |s.processed| == c.loops
    && (forall l :: 0 <= l < c.loops ==> |s.hands[l]| <= 1)
    && |s.outs| == |s.issued|
    && |c.subs| == |s.subs| == |s.ref| == |s.attached| == |s.handles| == ups
    && |s.reqs| == |s.lost| == |s.destroyed| == |s.delivered| == ups
  }

  function Fill<T>(n: nat, x: T): (s: seq<T>)
    ensures |s| == n && forall i :: 0 <= i < n ==> s[i] == x
  {
    seq(n, _ => x)
  }

  /** Every upgraded connection starts with the one reference of its connection. */
  function Start(c: Config, publishers: nat): State {
    var ups := |c.home|;
    State(Fill(publishers, Idle), Fill(c.loops, []), Fill(c.loops, []), Fill(c.loops, false),
          Fill(ups, 1), Fill(ups, true), c.subs, Fill(ups, 0), Fill(ups, 0), Fill(ups, 0), Fill(ups, 0), Fill(ups, []),
          Fill(publishers, []), Fill(c.loops, []))
  }

  // ----- the steps

  datatype Action =
    | GetHandle(u: nat)                          // get_upgraded
    | DropHandle(u: nat)                         // a decrement that never destroys: pending, open?, a refused write
    | AbandonHandle(u: nat)                      // env, and a write whose to_s raises: never given back
    | Publish(p: nat, id: nat, subject: nat)     // a message on a subject
    | PublishUp(p: nat, id: nat, kind: Kind, u: nat, pattern: Option<nat>)
                                                 // write, subscribe, unsubscribe or close; takes the handle over
    | Dup(p: nat)                                // the copy for a loop that is not the last
    | Push(p: nat)                               // onto the queue of the loop
    | Take(l: nat)
    | Process(l: nat, empty: bool)               // `empty`: the pending count reached zero and is reported
    | FreePub(l: nat)
    | ConRequest(u: nat)                         // a message, error or close request of the connection
    | Detach(u: nat)                             // agoo_con_destroy
    | HandlerRef(u: nat)                         // the close handler takes a reference for the close it publishes
    | FinishReq(u: nat)
    | LoseReq(u: nat)                            // a request without a hook, or a handler that raises: never given back

  /** agoo_upgraded_match */
  predicate Matches(c: Config, subs: seq<nat>, subject: nat) {
    exists i :: 0 <= i < |subs| && c.covers(subs[i], subject)
  }

  /** A message goes to every connection with a pattern that covers its subject, a write to its own. */
  predicate Reaches(c: Config, subs: seq<nat>, pub: Pub, u: nat) {
    || (pub.kind == Message && pub.subject.Some? && Matches(c, subs, pub.subject.value))
    || (pub.kind == Write && pub.up == Some(u))
  }

  /** agoo_upgraded_del_subject: the first equal pattern, or all. */
  function Without(subs: seq<nat>, x: nat): seq<nat> {
    if subs == [] then [] else if subs[0] == x then subs[1..] else [subs[0]] + Without(subs[1..], x)
  }

  predicate ChangesSubs(pub: Pub, u: nat) {
    pub.up == Some(u) && (pub.kind == Subscribe || pub.kind == Unsubscribe)
  }

  /** The patterns of a connection after its loop has acted on a publication. */
  function Resub(subs: seq<nat>, pub: Pub, u: nat): seq<nat> {
    if !ChangesSubs(pub, u) then subs
    else
      match pub.subject
      case None => if pub.kind == Unsubscribe then [] else subs
      case Some(x) =>
        if pub.kind == Unsubscribe then Without(subs, x) else if x in subs then subs else [x] + subs
  }

  predicate Enabled(c: Config, s: State, a: Action)
    requires Shaped(c, s)
  {
    match a
    case GetHandle(u) => u < |s.ref| && s.destroyed[u] == 0
    case DropHandle(u) => u < |s.ref| && s.handles[u] > 0
    case Publish(p, _, _) => p < |s.outs| && s.outs[p].Idle?
    case PublishUp(p, _, kind, u, _) =>
      p < |s.outs| && s.outs[p].Idle? && kind != Message && u < |s.ref| && s.handles[u] > 0
    case Dup(p) => p < |s.outs| && s.outs[p].Out? && s.outs[p].at < c.loops - 1 && !s.outs[p].copied
    case Push(p) => p < |s.outs| && s.outs[p].Out? && s.outs[p].at < c.loops
                    && (s.outs[p].copied <==> s.outs[p].at < c.loops - 1)
    case Take(l) => l < c.loops && s.hands[l] == [] && s.queues[l] != []
    case Process(l, empty) =>
      && l < c.loops && s.hands[l] != [] && !s.worked[l]
      && (empty ==> s.hands[l][0].up.Some? && s.hands[l][0].up.value < |s.ref|
                    && s.attached[s.hands[l][0].up.value] && c.home[s.hands[l][0].up.value] == l)
    case FreePub(l) => l < c.loops && s.hands[l] != [] && s.worked[l] && UpIn(s, s.hands[l][0])
    case ConRequest(u) => u < |s.ref| && s.attached[u]
    case Detach(u) => u < |s.ref| && s.attached[u] && s.hands[c.home[u]] == []
    case HandlerRef(u) => u < |s.ref| && s.reqs[u] > 0
    case FinishReq(u) => u < |s.ref| && s.reqs[u] > 0
    case AbandonHandle(u) => u < |s.ref| && s.handles[u] > 0
    case LoseReq(u) => u < |s.ref| && s.reqs[u] > 0
  }

  predicate UpIn(s: State, pub: Pub) {
    pub.up.Some? ==> pub.up.value < |s.ref|
  }

  /** The count goes up. */
  function Ref(s: State, u: nat): State
    requires u < |s.ref|
  {
    s.(ref := s.ref[u := s.ref[u] + 1])
  }

  /** agoo_upgraded_release: the count goes down, and whoever finds it at 1 or less destroys. */
  function Release(s: State, u: nat): State
    requires u < |s.ref| && u < |s.destroyed|
  {
    var s' := s.(ref := s.ref[u := s.ref[u] - 1]);
    if s.ref[u] <= 1 then s'.(destroyed := s.destroyed[u := s.destroyed[u] + 1]) else s'
  }

  function MaybeRef(s: State, pub: Pub): State
  {
    if pub.up.Some? && pub.up.value < |s.ref| then Ref(s, pub.up.value) else s
  }

  function Begin(s: State, p: nat, pub: Pub): State
    requires p < |s.outs| && p < |s.issued|
  {
    s.(outs := s.outs[p := Out(pub, 0, false)], issued := s.issued[p := s.issued[p] + [pub]])
  }

  /** What acting on a publication appends: to the attached connections of the loop that it reaches. */
  function Deliver(c: Config, s: State, l: nat, pub: Pub): (d: seq<seq<Pub>>)
    requires Shaped(c, s)
    ensures |d| == |s.delivered|
  {
    seq(|s.delivered|, u requires 0 <= u < |s.delivered| =>
      if s.attached[u] && c.home[u] == l && Reaches(c, s.subs[u], pub, u) then s.delivered[u] + [pub]
      else s.delivered[u])
  }

  /** And what it does to the subscriptions: those of an attached connection of the loop change. */
  function Subscribed(c: Config, s: State, l: nat, pub: Pub): (d: seq<seq<nat>>)
    requires Shaped(c, s)
    ensures |d| == |s.subs|
  {
    seq(|s.subs|, u requires 0 <= u < |s.subs| =>
      if s.attached[u] && c.home[u] == l then Resub(s.subs[u], pub, u) else s.subs[u])
  }

  function Step(c: Config, s: State, a: Action): State
    requires Shaped(c, s) && Enabled(c, s, a)
  {
    match a
    case GetHandle(u) => Ref(s, u).(handles := s.handles[u := s.handles[u] + 1])
    case DropHandle(u) => s.(ref := s.ref[u := s.ref[u] - 1], handles := s.handles[u := s.handles[u] - 1])
    case Publish(p, id, x) => Begin(s, p, Pub(id, p, Message, None, Some(x)))
    case PublishUp(p, id, kind, u, x) =>
      Begin(s, p, Pub(id, p, kind, Some(u), x)).(handles := s.handles[u := s.handles[u] - 1])
    case Dup(p) => MaybeRef(s, s.outs[p].pub).(outs := s.outs[p := s.outs[p].(copied := true)])
    case Push(p) =>
      var o := s.outs[p];
      s.(queues := s.queues[o.at := s.queues[o.at] + [o.pub]],
         outs := s.outs[p := if o.at == c.loops - 1 then Idle else Out(o.pub, o.at + 1, false)])
    case Take(l) =>
      s.(hands := s.hands[l := [s.queues[l][0]]], worked := s.worked[l := false],
         queues := s.queues[l := s.queues[l][1..]])
    case Process(l, empty) =>
      var pub := s.hands[l][0];
      var s' := s.(worked := s.worked[l := true], processed := s.processed[l := s.processed[l] + [pub]],
                   delivered := Deliver(c, s, l, pub), subs := Subscribed(c, s, l, pub));
      if empty then Ref(s', pub.up.value).(reqs := s.reqs[pub.up.value := s.reqs[pub.up.value] + 1]) else s'
    case FreePub(l) =>
      var pub := s.hands[l][0];
      var s' := s.(hands := s.hands[l := []]);
      if pub.up.Some? then Release(s', pub.up.value) else s'
    case ConRequest(u) => Ref(s, u).(reqs := s.reqs[u := s.reqs[u] + 1])
    case Detach(u) => Release(s.(attached := s.attached[u := false]), u)
    case HandlerRef(u) => Ref(s, u).(handles := s.handles[u := s.handles[u] + 1])
    case FinishReq(u) => Release(s.(reqs := s.reqs[u := s.reqs[u] - 1]), u)
    case AbandonHandle(u) => s.(handles := s.handles[u := s.handles[u] - 1], lost := s.lost[u := s.lost[u] + 1])
    case LoseReq(u) => s.(reqs := s.reqs[u := s.reqs[u] - 1], lost := s.lost[u := s.lost[u] + 1])
  }

  lemma StepShaped(c: Config, s: State, a: Action)
    requires Shaped(c, s) && Enabled(c, s, a)
    ensures Shaped(c, Step(c, s, a))
  {
    hide Deliver, Subscribed;
  }

  ghost predicate ValidConfig(c: Config) {
    c.loops > 0 && |c.subs| == |c.home| && forall u :: 0 <= u < |c.home| ==> c.home[u] < c.loops
  }

  /** The state after the actions, if each was enabled. */
  ghost function Run(c: Config, publishers: nat, actions: seq<Action>): (r: Option<State>)
    requires ValidConfig(c)
    ensures r.Some? ==> Shaped(c, r.value) && |r.value.outs| == publishers
  {
    if actions == [] then Some(Start(c, publishers))
    else
      match Run(c, publishers, actions[..|actions| - 1])
      case None => None
      case Some(s) =>
        var a := actions[|actions| - 1];
        if Enabled(c, s, a) then StepShaped(c, s, a); Some(Step(c, s, a)) else None
  }

  // ----- counting holders

  function One(pub: Pub, u: nat): nat {
    if pub.up == Some(u) then 1 else 0
  }

  /** How many of the publications are about `u`. */
  function In(q: seq<Pub>, u: nat): nat {
    if q == [] then 0 else In(q[..|q| - 1], u) + One(q[|q| - 1], u)
  }

  function InAll(qs: seq<seq<Pub>>, u: nat): nat {
    if qs == [] then 0 else InAll(qs[..|qs| - 1], u) + In(qs[|qs| - 1], u)
  }

  function InOut(o: Out, u: nat): nat {
    if o.Idle? then 0 else One(o.pub, u) + if o.copied then One(o.pub, u) else 0
  }

  function InOuts(outs: seq<Out>, u: nat): nat {
    if outs == [] then 0 else InOuts(outs[..|outs| - 1], u) + InOut(outs[|outs| - 1], u)
  }

  /** The live holders of a reference: the connection, the application, the requests, and the publications with a
      publisher, in a queue or in the hands of a loop. */
  function Holders(s: State, u: nat): nat
    requires u < |s.attached| && u < |s.handles| && u < |s.reqs|
  {
    (if s.attached[u] then 1 else 0) + s.handles[u] + s.reqs[u]
    + InOuts(s.outs, u) + InAll(s.queues, u) + InAll(s.hands, u)
  }

  lemma {:induction false} InConcat(a: seq<Pub>, b: seq<Pub>, u: nat)
    ensures In(a + b, u) == In(a, u) + In(b, u)
    decreases |b|
  {
    if b == [] {
      assert a + b == a;
    } else {
      assert (a + b)[..|a + b| - 1] == a + b[..|b| - 1];
      InConcat(a, b[..|b| - 1], u);
    }
  }

  lemma InOne(pub: Pub, u: nat)
    ensures In([pub], u) == One(pub, u)
  {
    assert [pub][..0] == [];
  }

  lemma {:induction false} InAllUpdate(qs: seq<seq<Pub>>, i: nat, q: seq<Pub>, u: nat)
    requires i < |qs|
    ensures InAll(qs[i := q], u) == InAll(qs, u) - In(qs[i], u) + In(q, u)
    ensures InAll(qs, u) >= In(qs[i], u)
    decreases |qs|
  {
    var n := |qs| - 1;
    if i == n {
      assert qs[i := q][..n] == qs[..n];
    } else {
      assert qs[i := q][..n] == qs[..n][i := q];
      InAllUpdate(qs[..n], i, q, u);
    }
  }

  lemma {:induction false} InOutsUpdate(outs: seq<Out>, i: nat, o: Out, u: nat)
    requires i < |outs|
    ensures InOuts(outs[i := o], u) == InOuts(outs, u) - InOut(outs[i], u) + InOut(o, u)
    ensures InOuts(outs, u) >= InOut(outs[i], u)
    decreases |outs|
  {
    var n := |outs| - 1;
    if i == n {
      assert outs[i := o][..n] == outs[..n];
    } else {
      assert outs[i := o][..n] == outs[..n][i := o];
      InOutsUpdate(outs[..n], i, o, u);
    }
  }

  lemma {:induction false} InAllEmpty(qs: seq<seq<Pub>>, u: nat)
    requires forall i :: 0 <= i < |qs| ==> qs[i] == []
    ensures InAll(qs, u) == 0
    decreases |qs|
  {
    if qs != [] {
      InAllEmpty(qs[..|qs| - 1], u);
    }
  }

  lemma {:induction false} InOutsIdle(outs: seq<Out>, u: nat)
    requires forall i :: 0 <= i < |outs| ==> outs[i].Idle?
    ensures InOuts(outs, u) == 0
    decreases |outs|
  {
    if outs != [] {
      InOutsIdle(outs[..|outs| - 1], u);
    }
  }

  // ----- reference safety

  /** The count is the number of holders and of references lost; after the one destroy there are neither. */
  ghost predicate RefAt(s: State, u: nat)
    requires u < |s.ref| && u < |s.destroyed| && u < |s.attached| && u < |s.handles| && u < |s.reqs| && u < |s.lost|
  {
    && s.ref[u] == Holders(s, u) + s.lost[u]
    && (s.destroyed[u] == 0 || (s.destroyed[u] == 1 && Holders(s, u) == 0 && s.lost[u] == 0))
  }

  ghost predicate RefInv(c: Config, s: State)
    requires Shaped(c, s)
  {
    forall u :: 0 <= u < |s.ref| ==> RefAt(s, u)
  }

  lemma HandleRef(c: Config, s: State, a: Action, u: nat)
    requires Shaped(c, s) && Enabled(c, s, a) && u < |s.ref| && RefAt(s, u)
    requires a.GetHandle? || a.DropHandle? || a.HandlerRef? || a.ConRequest? || a.AbandonHandle? || a.LoseReq?
    ensures RefAt(Step(c, s, a), u)
  {
    hide InOuts, InAll;
  }

  lemma PublishRef(c: Config, s: State, a: Action, u: nat)
    requires Shaped(c, s) && Enabled(c, s, a) && u < |s.ref| && RefAt(s, u)
    requires a.Publish? || a.PublishUp?
    ensures RefAt(Step(c, s, a), u)
  {
    hide InOuts, InAll;
    if a.Publish? {
      InOutsUpdate(s.outs, a.p, Out(Pub(a.id, a.p, Message, None, Some(a.subject)), 0, false), u);
    } else {
      InOutsUpdate(s.outs, a.p, Out(Pub(a.id, a.p, a.kind, Some(a.u), a.pattern), 0, false), u);
    }
  }

  lemma DupRef(c: Config, s: State, p: nat, u: nat)
    requires Shaped(c, s) && Enabled(c, s, Dup(p)) && u < |s.ref| && RefAt(s, u)
    ensures RefAt(Step(c, s, Dup(p)), u)
  {
    hide InOuts, InAll;
    InOutsUpdate(s.outs, p, s.outs[p].(copied := true), u);
  }

  lemma PushRef(c: Config, s: State, p: nat, u: nat)
    requires Shaped(c, s) && Enabled(c, s, Push(p)) && u < |s.ref| && RefAt(s, u)
    ensures RefAt(Step(c, s, Push(p)), u)
  {
    var o := s.outs[p];
    var q := s.queues[o.at];
    InConcat(q, [o.pub], u);
    InOne(o.pub, u);
    InAllUpdate(s.queues, o.at, q + [o.pub], u);
    InOutsUpdate(s.outs, p, if o.at == c.loops - 1 then Idle else Out(o.pub, o.at + 1, false), u);
    hide InOuts, InAll, In;
  }

  lemma TakeRef(c: Config, s: State, l: nat, u: nat)
    requires Shaped(c, s) && Enabled(c, s, Take(l)) && u < |s.ref| && RefAt(s, u)
    ensures RefAt(Step(c, s, Take(l)), u)
  {
    var q := s.queues[l];
    assert q == [q[0]] + q[1..];
    InConcat([q[0]], q[1..], u);
    InAllUpdate(s.queues, l, q[1..], u);
    InAllUpdate(s.hands, l, [q[0]], u);
    assert In([], u) == 0;
    hide InOuts, InAll, In;
  }

  lemma ProcessRef(c: Config, s: State, l: nat, empty: bool, u: nat)
    requires Shaped(c, s) && Enabled(c, s, Process(l, empty)) && u < |s.ref| && RefAt(s, u)
    ensures RefAt(Step(c, s, Process(l, empty)), u)
  {
    hide InOuts, InAll, Deliver, Subscribed;
  }

  lemma FreePubRef(c: Config, s: State, l: nat, u: nat)
    requires Shaped(c, s) && Enabled(c, s, FreePub(l)) && u < |s.ref| && RefAt(s, u)
    ensures RefAt(Step(c, s, FreePub(l)), u)
  {
    var h := s.hands[l];
    assert h == [h[0]];
    InOne(h[0], u);
    InAllUpdate(s.hands, l, [], u);
    assert In([], u) == 0;
    hide InOuts, InAll, In;
  }

  lemma LeaveRef(c: Config, s: State, a: Action, u: nat)
    requires Shaped(c, s) && Enabled(c, s, a) && u < |s.ref| && RefAt(s, u)
    requires a.Detach? || a.FinishReq?
    ensures RefAt(Step(c, s, a), u)
  {
    hide InOuts, InAll;
  }

  lemma StepRef(c: Config, s: State, a: Action)
    requires Shaped(c, s) && Enabled(c, s, a) && RefInv(c, s)
    ensures Shaped(c, Step(c, s, a)) && RefInv(c, Step(c, s, a))
  {
    StepShaped(c, s, a);
    hide Step, RefAt;
    forall u: nat | u < |Step(c, s, a).ref|
      ensures RefAt(Step(c, s, a), u)
    {
      assert RefAt(s, u);
      match a {
        case GetHandle(_) => HandleRef(c, s, a, u);
        case DropHandle(_) => HandleRef(c, s, a, u);
        case HandlerRef(_) => HandleRef(c, s, a, u);
        case ConRequest(_) => HandleRef(c, s, a, u);
        case AbandonHandle(_) => HandleRef(c, s, a, u);
        case LoseReq(_) => HandleRef(c, s, a, u);
        case Publish(_, _, _) => PublishRef(c, s, a, u);
        case PublishUp(_, _, _, _, _) => PublishRef(c, s, a, u);
        case Dup(p) => DupRef(c, s, p, u);
        case Push(p) => PushRef(c, s, p, u);
        case Take(l) => TakeRef(c, s, l, u);
        case Process(l, empty) => ProcessRef(c, s, l, empty, u);
        case FreePub(l) => FreePubRef(c, s, l, u);
        case Detach(_) => LeaveRef(c, s, a, u);
        case FinishReq(_) => LeaveRef(c, s, a, u);
      }
    }
  }

  lemma StartRef(c: Config, publishers: nat)
    requires ValidConfig(c)
    ensures Shaped(c, Start(c, publishers)) && RefInv(c, Start(c, publishers))
  {
    var s := Start(c, publishers);
    forall u: nat | u < |s.ref|
      ensures RefAt(s, u)
    {
      InAllEmpty(s.queues, u);
      InAllEmpty(s.hands, u);
      InOutsIdle(s.outs, u);
      hide InAll, InOuts;
    }
  }

  /** In every run the count of an upgraded connection is the number of its holders and of the references lost, it is
      destroyed at most once, and never while anything holds it or a reference to it was lost. */
  lemma {:induction false} ReferenceSafety(c: Config, publishers: nat, actions: seq<Action>)
    requires ValidConfig(c) && Run(c, publishers, actions).Some?
    ensures RefInv(c, Run(c, publishers, actions).value)
    ensures var s := Run(c, publishers, actions).value;
            forall u :: 0 <= u < |s.ref| ==>
              && s.ref[u] == Holders(s, u) + s.lost[u] >= Holders(s, u) && s.destroyed[u] <= 1
              && (Holders(s, u) + s.lost[u] > 0 ==> s.destroyed[u] == 0)
    decreases |actions|
  {
    hide RefInv, Step, Start, Enabled;
    if actions == [] {
      StartRef(c, publishers);
    } else {
      ReferenceSafety(c, publishers, actions[..|actions| - 1]);
      StepRef(c, Run(c, publishers, actions[..|actions| - 1]).value, actions[|actions| - 1]);
    }
    Safe(c, Run(c, publishers, actions).value);
  }

  lemma Safe(c: Config, s: State)
    requires Shaped(c, s) && RefInv(c, s)
    ensures forall u :: 0 <= u < |s.ref| ==>
              && s.ref[u] == Holders(s, u) + s.lost[u] >= Holders(s, u) && s.destroyed[u] <= 1
              && (Holders(s, u) + s.lost[u] > 0 ==> s.destroyed[u] == 0)
  {
    hide Holders;
    forall u | 0 <= u < |s.ref|
      ensures s.ref[u] == Holders(s, u) + s.lost[u] >= Holders(s, u) && s.destroyed[u] <= 1
      ensures Holders(s, u) + s.lost[u] > 0 ==> s.destroyed[u] == 0
    {
      assert RefAt(s, u);
    }
  }

  /** When the last holder goes the object is destroyed if and only if no reference was lost, by that step or before it,
      and the step is no plain decrement. */
  lemma LastHolder(c: Config, s: State, a: Action, u: nat)
    requires Shaped(c, s) && Enabled(c, s, a) && RefInv(c, s) && u < |s.ref|
    requires Holders(s, u) > 0 && Shaped(c, Step(c, s, a)) && Holders(Step(c, s, a), u) == 0
    ensures var s' := Step(c, s, a); s'.destroyed[u] == 1 <==> s'.lost[u] == 0 && !a.DropHandle?
  {
    StepRef(c, s, a);
    assert RefAt(s, u) && RefAt(Step(c, s, a), u);
    hide Holders, RefInv;
  }

  /** A reference lost is lost for good: whatever happens afterwards, the object is never destroyed. */
  lemma {:induction false} NeverDestroyed(c: Config, publishers: nat, actions: seq<Action>, more: seq<Action>, u: nat)
    requires ValidConfig(c) && Run(c, publishers, actions).Some? && Run(c, publishers, actions + more).Some?
    requires u < |c.home| && Run(c, publishers, actions).value.lost[u] > 0
    ensures var s := Run(c, publishers, actions + more).value; s.lost[u] > 0 && s.destroyed[u] == 0
    decreases |more|
  {
    hide Step, Start, Enabled, RefInv, Holders;
    if more == [] {
      assert actions + more == actions;
    } else {
      var last := |more| - 1;
      assert (actions + more)[..|actions + more| - 1] == actions + more[..last];
      NeverDestroyed(c, publishers, actions, more[..last], u);
      LostStays(c, Run(c, publishers, actions + more[..last]).value, more[last], u);
    }
    ReferenceSafety(c, publishers, actions + more);
  }

  lemma LostStays(c: Config, s: State, a: Action, u: nat)
    requires Shaped(c, s) && Enabled(c, s, a) && u < |s.lost|
    ensures u < |Step(c, s, a).lost| && Step(c, s, a).lost[u] >= s.lost[u]
  {
    hide Deliver, Subscribed;
  }

  // ----- runs in which nobody destroys the object

  /** After the run nothing holds the first upgraded connection, and it was not destroyed. */
  ghost predicate Leaks(c: Config, actions: seq<Action>)
    requires ValidConfig(c) && |c.home| > 0
  {
    var r := Run(c, 0, actions);
    r.Some? && Holders(r.value, 0) == 0 && r.value.destroyed[0] == 0
  }

  lemma RunThree(c: Config, a1: Action, s1: State, a2: Action, s2: State, a3: Action)
    requires ValidConfig(c) && Shaped(c, Start(c, 0)) && Enabled(c, Start(c, 0), a1) && s1 == Step(c, Start(c, 0), a1)
    requires Shaped(c, s1) && Enabled(c, s1, a2) && s2 == Step(c, s1, a2)
    requires Shaped(c, s2) && Enabled(c, s2, a3)
    ensures Run(c, 0, [a1, a2, a3]) == Some(Step(c, s2, a3)) && Shaped(c, Step(c, s2, a3))
  {
    hide Step, Enabled, Start, Shaped;
    RunNone(c, 0);
    RunNext(c, 0, [], a1, Start(c, 0));
    assert [] + [a1] == [a1];
    RunNext(c, 0, [a1], a2, s1);
    assert [a1] + [a2] == [a1, a2];
    RunNext(c, 0, [a1, a2], a3, s2);
    assert [a1, a2] + [a3] == [a1, a2, a3];
  }

  /** The connection goes while the application asks for the pending count. */
  lemma Leak(covers: (nat, nat) -> bool)
    ensures Leaks(Config(1, [0], [[]], covers), [GetHandle(0), Detach(0), DropHandle(0)])
  {
    hide InAll, InOuts, Deliver, Subscribed, Run;
    var c := Config(1, [0], [[]], covers);
    var s1 := Step(c, Start(c, 0), GetHandle(0));
    var s2 := Step(c, s1, Detach(0));
    RunThree(c, GetHandle(0), s1, Detach(0), s2, DropHandle(0));
    Unheld(c, [GetHandle(0), Detach(0), DropHandle(0)]);
  }

  /** The application asks for the environment once, and the connection goes. */
  lemma LeakEnv(covers: (nat, nat) -> bool)
    ensures Leaks(Config(1, [0], [[]], covers), [GetHandle(0), AbandonHandle(0), Detach(0)])
  {
    hide InAll, InOuts, Deliver, Subscribed, Run;
    var c := Config(1, [0], [[]], covers);
    var s1 := Step(c, Start(c, 0), GetHandle(0));
    var s2 := Step(c, s1, AbandonHandle(0));
    RunThree(c, GetHandle(0), s1, AbandonHandle(0), s2, Detach(0));
    Unheld(c, [GetHandle(0), AbandonHandle(0), Detach(0)]);
  }

  /** A request of the connection, dropped. */
  lemma RequestLost(c: Config) returns (s1: State, s2: State)
    requires c.loops == 1 && c.home == [0] && c.subs == [[]]
    ensures Shaped(c, Start(c, 0)) && Enabled(c, Start(c, 0), ConRequest(0))
    ensures s1 == Step(c, Start(c, 0), ConRequest(0))
    ensures Shaped(c, s1) && Enabled(c, s1, LoseReq(0)) && s2 == Step(c, s1, LoseReq(0))
    ensures Shaped(c, s2) && s2.ref == [2] && s2.lost == [1] && s2.attached == [true]
    ensures s2.destroyed == [0] && s2.hands == [[]]
  {
    hide Deliver, Subscribed;
    s1 := Step(c, Start(c, 0), ConRequest(0));
    s2 := Step(c, s1, LoseReq(0));
  }

  /** One message for a handler that does not take messages, or that raises, and the connection goes. */
  lemma LeakRequest(covers: (nat, nat) -> bool)
    ensures Leaks(Config(1, [0], [[]], covers), [ConRequest(0), LoseReq(0), Detach(0)])
  {
    hide InAll, InOuts, Deliver, Subscribed, Run, Start;
    var c := Config(1, [0], [[]], covers);
    var s1, s2 := RequestLost(c);
    RunThree(c, ConRequest(0), s1, LoseReq(0), s2, Detach(0));
    Unheld(c, [ConRequest(0), LoseReq(0), Detach(0)]);
  }

  /** No holder is left when the count is that of the references lost. */
  lemma Unheld(c: Config, actions: seq<Action>)
    requires ValidConfig(c) && |c.home| > 0 && Run(c, 0, actions).Some?
    requires var s := Run(c, 0, actions).value; s.ref[0] == s.lost[0] && s.destroyed[0] == 0
    ensures Leaks(c, actions)
  {
    ReferenceSafety(c, 0, actions);
    hide Run, Holders;
    assert RefAt(Run(c, 0, actions).value, 0);
  }

  lemma RunNone(c: Config, publishers: nat)
    requires ValidConfig(c)
    ensures Run(c, publishers, []) == Some(Start(c, publishers))
  {
  }

  lemma RunNext(c: Config, publishers: nat, actions: seq<Action>, a: Action, s: State)
    requires ValidConfig(c) && Run(c, publishers, actions) == Some(s) && Enabled(c, s, a)
    ensures Run(c, publishers, actions + [a]) == Some(Step(c, s, a)) && Shaped(c, Step(c, s, a))
  {
    hide Step, Enabled;
    assert (actions + [a])[..|actions|] == actions;
    StepShaped(c, s, a);
  }

  // ----- exactly once, in order

  /** The publications of one publisher. */
  function From(q: seq<Pub>, p: nat): seq<Pub> {
    if q == [] then [] else From(q[..|q| - 1], p) + if q[|q| - 1].from == p then [q[|q| - 1]] else []
  }

  /** The patterns of a connection once its loop has acted on the publications. */
  function SubsAfter(c: Config, q: seq<Pub>, u: nat): seq<nat>
    requires u < |c.subs|
  {
    if q == [] then c.subs[u] else Resub(SubsAfter(c, q[..|q| - 1], u), q[|q| - 1], u)
  }

  /** The publications that reach one connection, each by the subscriptions acted on before it. */
  function Reach(c: Config, q: seq<Pub>, u: nat): seq<Pub>
    requires u < |c.subs|
  {
    if q == [] then []
    else
      var q', pub := q[..|q| - 1], q[|q| - 1];
      Reach(c, q', u) + if Reaches(c, SubsAfter(c, q', u), pub, u) then [pub] else []
  }

  lemma {:induction false} FromConcat(a: seq<Pub>, b: seq<Pub>, p: nat)
    ensures From(a + b, p) == From(a, p) + From(b, p)
    decreases |b|
  {
    if b == [] {
      assert a + b == a;
    } else {
      assert (a + b)[..|a + b| - 1] == a + b[..|b| - 1];
      FromConcat(a, b[..|b| - 1], p);
    }
  }

  lemma {:induction false} ReachPrefix(c: Config, a: seq<Pub>, b: seq<Pub>, u: nat)
    requires u < |c.subs| && a <= b
    ensures Reach(c, a, u) <= Reach(c, b, u)
    decreases |b|
  {
    if |a| < |b| {
      ReachPrefix(c, a, b[..|b| - 1], u);
    } else {
      assert a == b;
    }
  }

  lemma FromNext(q: seq<Pub>, pub: Pub, p: nat)
    ensures From(q + [pub], p) == From(q, p) + if pub.from == p then [pub] else []
  {
    assert (q + [pub])[..|q|] == q;
  }

  lemma ReachNext(c: Config, q: seq<Pub>, pub: Pub, u: nat)
    requires u < |c.subs|
    ensures Reach(c, q + [pub], u) == Reach(c, q, u) + if Reaches(c, SubsAfter(c, q, u), pub, u) then [pub] else []
    ensures SubsAfter(c, q + [pub], u) == Resub(SubsAfter(c, q, u), pub, u)
  {
    assert (q + [pub])[..|q|] == q;
  }

  /** Every change of a connection's subscriptions comes from one publisher. */
  ghost predicate SubsBy(q: seq<Pub>, u: nat, p: nat) {
    forall i :: 0 <= i < |q| && ChangesSubs(q[i], u) ==> q[i].from == p
  }

  /** What such a publisher publishes is delivered by its own order alone. */
  lemma {:induction false} Commute(c: Config, q: seq<Pub>, u: nat, p: nat)
    requires u < |c.subs| && SubsBy(q, u, p)
    ensures From(Reach(c, q, u), p) == Reach(c, From(q, p), u)
    ensures SubsAfter(c, q, u) == SubsAfter(c, From(q, p), u)
    decreases |q|
  {
    if q != [] {
      var q', pub := q[..|q| - 1], q[|q| - 1];
      Commute(c, q', u, p);
      FromNext(Reach(c, q', u), pub, p);
      ReachNext(c, From(q', p), pub, u);
      var r, f := Reach(c, q', u), From(q', p);
      assert r + [] == r && f + [] == f && From(r, p) + [] == From(r, p);
    }
  }

  /** Everything that was ever pushed on the queue of a loop, in order. */
  function Arrived(c: Config, s: State, l: nat): seq<Pub>
    requires Shaped(c, s) && l < c.loops
  {
    s.processed[l] + (if s.worked[l] then [] else s.hands[l]) + s.queues[l]
  }

  /** What a publisher has sent to a loop: all it published, but for the one it has not come to that loop with. */
  function Sent(s: State, p: nat, l: nat): seq<Pub>
    requires p < |s.outs| && p < |s.issued|
  {
    if s.outs[p].Out? && s.outs[p].at <= l && s.issued[p] != [] then s.issued[p][..|s.issued[p]| - 1] else s.issued[p]
  }

  ghost predicate OutRight(c: Config, s: State, p: nat)
    requires p < |s.outs| && p < |s.issued|
  {
    s.outs[p].Out? ==>
      && s.issued[p] != [] && s.outs[p].pub == s.issued[p][|s.issued[p]| - 1]
      && s.outs[p].pub.from == p && s.outs[p].at < c.loops
  }

  ghost predicate OrderAt(c: Config, s: State, p: nat, l: nat)
    requires Shaped(c, s) && p < |s.outs| && l < c.loops
  {
    From(Arrived(c, s, l), p) == Sent(s, p, l)
  }

  ghost predicate DeliveredAt(c: Config, s: State, u: nat)
    requires Shaped(c, s) && u < |s.ref|
  {
    s.attached[u] ==>
      && s.delivered[u] == Reach(c, s.processed[c.home[u]], u)
      && s.subs[u] == SubsAfter(c, s.processed[c.home[u]], u)
  }

  ghost predicate OrderInv(c: Config, s: State)
    requires Shaped(c, s)
  {
    && (forall p :: 0 <= p < |s.outs| ==> OutRight(c, s, p))
    && (forall p, l :: 0 <= p < |s.outs| && 0 <= l < c.loops ==> OrderAt(c, s, p, l))
    && (forall u :: 0 <= u < |s.ref| ==> DeliveredAt(c, s, u))
  }

  /** Only a push adds to what has arrived at a loop. */
  lemma ArrivedNext(c: Config, s: State, a: Action, l: nat)
    requires Shaped(c, s) && Enabled(c, s, a) && l < c.loops && Shaped(c, Step(c, s, a))
    ensures Arrived(c, Step(c, s, a), l)
         == Arrived(c, s, l) + if a.Push? && s.outs[a.p].at == l then [s.outs[a.p].pub] else []
  {
    hide Deliver, Subscribed;
    match a {
      case Take(k) => ArrivedTaken(c, s, k, l);
      case Process(k, empty) => ArrivedProcessed(c, s, k, empty, l);
      case _ =>
    }
  }

  lemma ArrivedTaken(c: Config, s: State, k: nat, l: nat)
    requires Shaped(c, s) && Enabled(c, s, Take(k)) && l < c.loops && Shaped(c, Step(c, s, Take(k)))
    ensures Arrived(c, Step(c, s, Take(k)), l) == Arrived(c, s, l)
  {
    assert s.queues[k] == [s.queues[k][0]] + s.queues[k][1..];
  }

  lemma ArrivedProcessed(c: Config, s: State, k: nat, empty: bool, l: nat)
    requires Shaped(c, s) && Enabled(c, s, Process(k, empty)) && l < c.loops && Shaped(c, Step(c, s, Process(k, empty)))
    ensures Arrived(c, Step(c, s, Process(k, empty)), l) == Arrived(c, s, l)
  {
    hide Deliver, Subscribed;
    assert s.hands[k] == [s.hands[k][0]];
  }

  lemma StepOutRight(c: Config, s: State, a: Action, p: nat)
    requires Shaped(c, s) && Enabled(c, s, a) && Shaped(c, Step(c, s, a))
    requires p < |s.outs| && OutRight(c, s, p)
    ensures OutRight(c, Step(c, s, a), p)
  {
    hide Deliver, Subscribed;
  }

  lemma StepOrder(c: Config, s: State, a: Action, p: nat, l: nat)
    requires Shaped(c, s) && Enabled(c, s, a) && Shaped(c, Step(c, s, a))
    requires p < |s.outs| && l < c.loops && OrderAt(c, s, p, l) && OutRight(c, s, p)
    requires a.Push? ==> OutRight(c, s, a.p)
    ensures OrderAt(c, Step(c, s, a), p, l)
  {
    ArrivedNext(c, s, a, l);
    if a.Push? && s.outs[a.p].at == l {
      FromNext(Arrived(c, s, l), s.outs[a.p].pub, p);
    } else {
      assert Arrived(c, s, l) + [] == Arrived(c, s, l);
    }
    SentNext(c, s, a, p, l);
    hide Deliver, Subscribed, Arrived, Sent, From;
  }

  lemma SentNext(c: Config, s: State, a: Action, p: nat, l: nat)
    requires Shaped(c, s) && Enabled(c, s, a) && Shaped(c, Step(c, s, a))
    requires p < |s.outs| && l < c.loops && OutRight(c, s, p)
    ensures Sent(Step(c, s, a), p, l)
         == Sent(s, p, l) + if a.Push? && a.p == p && s.outs[p].at == l then [s.outs[p].pub] else []
  {
    hide Deliver, Subscribed;
  }

  lemma StepDelivered(c: Config, s: State, a: Action, u: nat)
    requires Shaped(c, s) && Enabled(c, s, a) && Shaped(c, Step(c, s, a))
    requires u < |s.ref| && DeliveredAt(c, s, u)
    ensures DeliveredAt(c, Step(c, s, a), u)
  {
    hide Reach, Reaches, SubsAfter, Resub;
    if a.Process? {
      ReachNext(c, s.processed[a.l], s.hands[a.l][0], u);
    }
  }

  lemma StepOrderInv(c: Config, s: State, a: Action)
    requires Shaped(c, s) && Enabled(c, s, a) && OrderInv(c, s)
    ensures Shaped(c, Step(c, s, a)) && OrderInv(c, Step(c, s, a))
  {
    StepShaped(c, s, a);
    var s' := Step(c, s, a);
    SameSize(c, s, a);
    hide Step, OutRight, OrderAt, DeliveredAt;
    forall p: nat | p < |s.outs|
      ensures OutRight(c, s', p)
    {
      assert OutRight(c, s, p);
      StepOutRight(c, s, a, p);
    }
    forall p: nat, l: nat | p < |s.outs| && l < c.loops
      ensures OrderAt(c, s', p, l)
    {
      assert OutRight(c, s, p) && OrderAt(c, s, p, l);
      if a.Push? {
        assert OutRight(c, s, a.p);
      }
      StepOrder(c, s, a, p, l);
    }
    forall u: nat | u < |s.ref|
      ensures DeliveredAt(c, s', u)
    {
      assert DeliveredAt(c, s, u);
      StepDelivered(c, s, a, u);
    }
  }

  lemma SameSize(c: Config, s: State, a: Action)
    requires Shaped(c, s) && Enabled(c, s, a)
    ensures |Step(c, s, a).outs| == |s.outs| && |Step(c, s, a).ref| == |s.ref|
  {
    hide Deliver, Subscribed;
  }

  lemma {:induction false} RunOrder(c: Config, publishers: nat, actions: seq<Action>)
    requires ValidConfig(c) && Run(c, publishers, actions).Some?
    ensures OrderInv(c, Run(c, publishers, actions).value)
    decreases |actions|
  {
    if actions == [] {
      StartOrder(c, publishers);
    } else {
      hide Step, OrderInv, Enabled, Start;
      RunOrder(c, publishers, actions[..|actions| - 1]);
      StepOrderInv(c, Run(c, publishers, actions[..|actions| - 1]).value, actions[|actions| - 1]);
    }
  }

  lemma StartOrder(c: Config, publishers: nat)
    requires ValidConfig(c)
    ensures Shaped(c, Start(c, publishers)) && OrderInv(c, Start(c, publishers))
  {
  }

  /** Nothing is on its way: every publisher is done, every queue empty, every loop idle. */
  ghost predicate Drained(c: Config, s: State)
    requires Shaped(c, s)
  {
    && (forall p :: 0 <= p < |s.outs| ==> s.outs[p].Idle?)
    && (forall l :: 0 <= l < c.loops ==> s.queues[l] == [] && s.hands[l] == [])
  }

  /** In every run, a connection that is still attached has been given exactly the publications that reach it among
      those its loop has acted on, each by the subscriptions acted on before it, in that order and nothing twice; and
      of each publisher the loop has acted on a prefix of what it published, and on all of it once everything has
      drained. */
  lemma ExactlyOnce(c: Config, publishers: nat, actions: seq<Action>, u: nat)
    requires ValidConfig(c) && Run(c, publishers, actions).Some? && u < |c.home|
    requires Run(c, publishers, actions).value.attached[u]
    ensures var s := Run(c, publishers, actions).value;
            var done := s.processed[c.home[u]];
            && s.delivered[u] == Reach(c, done, u)
            && (forall p :: 0 <= p < publishers ==> From(done, p) <= s.issued[p])
            && (Drained(c, s) ==> forall p :: 0 <= p < publishers ==> From(done, p) == s.issued[p])
  {
    var s := Run(c, publishers, actions).value;
    RunOrder(c, publishers, actions);
    hide Run, From;
    assert DeliveredAt(c, s, u);
    forall p: nat | p < publishers
      ensures From(s.processed[c.home[u]], p) <= s.issued[p]
      ensures Drained(c, s) ==> From(s.processed[c.home[u]], p) == s.issued[p]
    {
      DoneAt(c, s, c.home[u], p);
    }
  }

  lemma DoneAt(c: Config, s: State, l: nat, p: nat)
    requires Shaped(c, s) && OrderInv(c, s) && l < c.loops && p < |s.outs|
    ensures From(s.processed[l], p) <= s.issued[p]
    ensures Drained(c, s) ==> From(s.processed[l], p) == s.issued[p]
  {
    hide From;
    assert OrderAt(c, s, p, l);
    var rest := (if s.worked[l] then [] else s.hands[l]) + s.queues[l];
    assert Arrived(c, s, l) == s.processed[l] + rest;
    FromConcat(s.processed[l], rest, p);
    assert From(s.processed[l], p) <= Sent(s, p, l) <= s.issued[p];
    if Drained(c, s) {
      assert rest == [];
      NothingFrom(p);
    }
  }

  /** When one publisher makes all changes to a connection's subscriptions, or there are none, the connection has been
      given a prefix of what that publisher published for it, by the subscriptions published before, in the order of
      publishing; and exactly all of it once everything has drained. */
  lemma InOrder(c: Config, publishers: nat, actions: seq<Action>, u: nat, p: nat)
    requires ValidConfig(c) && Run(c, publishers, actions).Some? && u < |c.home| && p < publishers
    requires Run(c, publishers, actions).value.attached[u]
    requires SubsBy(Run(c, publishers, actions).value.processed[c.home[u]], u, p)
    ensures var s := Run(c, publishers, actions).value;
            && From(s.delivered[u], p) <= Reach(c, s.issued[p], u)
            && (Drained(c, s) ==> From(s.delivered[u], p) == Reach(c, s.issued[p], u))
  {
    ExactlyOnce(c, publishers, actions, u);
    var s := Run(c, publishers, actions).value;
    hide Run, Reach, From;
    var done := s.processed[c.home[u]];
    Commute(c, done, u, p);
    ReachPrefix(c, From(done, p), s.issued[p], u);
  }

  lemma NothingFrom(p: nat)
    ensures From([], p) == []
  {
  }
}
