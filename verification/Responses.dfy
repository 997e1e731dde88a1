/** Pipelined responses (con.c, res.c) as a state machine: requests append responses, the application gives each its
    early hints and its final message in any order between responses, and the connection loop writes. */
module Responses {
  import opened Bytes
  import opened Wrappers

  /** A response: the messages still to write, those written, and whether the final one has been given. */
  datatype Resp = Resp(message: seq<Text>, sent: seq<Text>, final: bool, close: bool)

  /** The responses destroyed, those in the list, how much of the first message is written, all the bytes on the wire,
      and whether the write told the loop to close. */
  datatype State = State(gone: seq<Resp>, list: seq<Resp>, wcnt: nat, wire: Text, closed: bool)

  function Flat(ts: seq<Text>): Text {
    if ts == [] then [] else Flat(ts[..|ts| - 1]) + ts[|ts| - 1]
  }

  function Whole(r: Resp): seq<Text> {
    r.sent + r.message
  }

  /** Everything the responses hold, in order. */
  function Stream(rs: seq<Resp>): Text {
    if rs == [] then [] else Stream(rs[..|rs| - 1]) + Flat(Whole(rs[|rs| - 1]))
  }

  // ----- the steps

  datatype Action =
    | Append(close: bool)
    | Early(k: nat, t: Text)
    | Final(k: nat, last: Option<Text>)  // None for a NULL message
    | Write(cnt: nat)

  const START := State([], [], 0, [], false)

  function Extended(r: Resp, t: Option<Text>, final: bool): Resp {
    if r.final then r
    else r.(message := r.message + (if t.Some? then [t.value] else []), final := final)
  }

  /** A live response is still in the list; the write needs a message at the head, as the event mask asks. */
  predicate Enabled(s: State, a: Action) {
    match a
    case Append(_) => true
    case Early(k, _) => |s.gone| <= k < |s.gone| + |s.list|
    case Final(k, _) => |s.gone| <= k < |s.gone| + |s.list|
    case Write(cnt) =>
      && !s.closed && s.list != [] && s.list[0].message != []
      && s.wcnt + cnt <= |s.list[0].message[0]|
  }

  function Step(s: State, a: Action): State
    requires Enabled(s, a)
  {
    match a
    case Append(close) => s.(list := s.list + [Resp([], [], false, close)])
    case Early(k, t) =>
      s.(list := s.list[k - |s.gone| := Extended(s.list[k - |s.gone|], Some(t), false)])
    case Final(k, t) =>
      s.(list := s.list[k - |s.gone| := Extended(s.list[k - |s.gone|], t, true)])
    case Write(cnt) => Written(s, cnt)
  }

  function Written(s: State, cnt: nat): State
    requires Enabled(s, Write(cnt))
  {
    var r := s.list[0];
    var wire := s.wire + r.message[0][s.wcnt..s.wcnt + cnt];
    if s.wcnt + cnt < |r.message[0]| then s.(wcnt := s.wcnt + cnt, wire := wire)
    else
      var r' := r.(message := r.message[1..], sent := r.sent + [r.message[0]]);
      if r'.message == [] && r.final then State(s.gone + [r'], s.list[1..], 0, wire, s.closed || r.close)
      else s.(list := s.list[0 := r'], wcnt := 0, wire := wire)
  }

  /** The state after the actions, if each was enabled. */
  function Run(actions: seq<Action>): Option<State> {
    if actions == [] then Some(START)
    else
      match Run(actions[..|actions| - 1])
      case None => None
      case Some(s) =>
        var a := actions[|actions| - 1];
        if Enabled(s, a) then Some(Step(s, a)) else None
  }

  // ----- what was asked for

  /** How many responses the actions appended. */
  function Requests(actions: seq<Action>): nat {
    if actions == [] then 0
    else Requests(actions[..|actions| - 1]) + if actions[|actions| - 1].Append? then 1 else 0
  }

  /** The final message of response `k` has been given. */
  predicate Ended(actions: seq<Action>, k: nat) {
    exists i :: 0 <= i < |actions| && actions[i].Final? && actions[i].k == k
  }

  /** What was given to response `k`: its early hints and the final message, up to the first final. */
  function Given(actions: seq<Action>, k: nat): seq<Text> {
    if actions == [] then []
    else
      var before, a := actions[..|actions| - 1], actions[|actions| - 1];
      if Ended(before, k) then Given(before, k)
      else if a.Early? && a.k == k then Given(before, k) + [a.t]
      else if a.Final? && a.k == k && a.last.Some? then Given(before, k) + [a.last.value]
      else Given(before, k)
  }

  /** The messages of the first `n` responses, one response after another. */
  function Asked(actions: seq<Action>, n: nat): Text {
    if n == 0 then [] else Asked(actions, n - 1) + Flat(Given(actions, n - 1))
  }

  // ----- the invariants

  /** What has been written of the response at the head. */
  function HeadWritten(s: State): Text
    requires s.wcnt > 0 ==> s.list != [] && s.list[0].message != [] && s.wcnt <= |s.list[0].message[0]|
  {
    if s.list == [] then []
    else Flat(s.list[0].sent) + if s.wcnt == 0 then [] else s.list[0].message[0][..s.wcnt]
  }

  /** The wire holds the responses that are gone and what the head has written. */
  ghost predicate WireInv(s: State) {
    && (s.wcnt > 0 ==> s.list != [] && s.list[0].message != [] && s.wcnt <= |s.list[0].message[0]|)
    && s.wire == Stream(s.gone) + HeadWritten(s)
  }

  /** Nothing is left of the responses that are gone, and nothing is written behind the head. */
  ghost predicate Tidy(s: State) {
    && (forall i :: 0 <= i < |s.gone| ==> s.gone[i].message == [] && s.gone[i].final)
    && (forall i :: 0 < i < |s.list| ==> s.list[i].sent == [])
  }

  ghost predicate Inv(s: State) {
    WireInv(s) && Tidy(s)
  }

  ghost predicate AgreesAt(actions: seq<Action>, r: Resp, k: nat) {
    Whole(r) == Given(actions, k) && (r.final <==> Ended(actions, k))
  }

  /** Every response holds exactly what the actions gave it. */
  ghost predicate Agrees(actions: seq<Action>, s: State) {
    && |s.gone| + |s.list| == Requests(actions)
    && (forall k :: 0 <= k < |s.gone| + |s.list| ==> AgreesAt(actions, (s.gone + s.list)[k], k))
    && forall k :: k >= |s.gone| + |s.list| ==> Given(actions, k) == [] && !Ended(actions, k)
  }

  // ----- the proofs

  lemma {:induction false} FlatConcat(a: seq<Text>, b: seq<Text>)
    ensures Flat(a + b) == Flat(a) + Flat(b)
    decreases |b|
  {
    if b == [] {
      assert a + b == a;
    } else {
      var b', t := b[..|b| - 1], b[|b| - 1];
      assert (a + b)[..|a + b| - 1] == a + b';
      FlatConcat(a, b');
      Assoc(Flat(a), Flat(b'), t);
    }
  }

  lemma FlatOne(a: seq<Text>, t: Text)
    ensures Flat(a + [t]) == Flat(a) + t
  {
    assert (a + [t])[..|a|] == a;
  }

  lemma {:induction false} StreamConcat(a: seq<Resp>, b: seq<Resp>)
    ensures Stream(a + b) == Stream(a) + Stream(b)
    decreases |b|
  {
    if b == [] {
      assert a + b == a;
    } else {
      var b', r := b[..|b| - 1], b[|b| - 1];
      assert (a + b)[..|a + b| - 1] == a + b';
      StreamConcat(a, b');
      Assoc(Stream(a), Stream(b'), Flat(Whole(r)));
    }
  }

  lemma StreamOne(a: seq<Resp>, r: Resp)
    ensures Stream(a + [r]) == Stream(a) + Flat(Whole(r))
  {
    assert (a + [r])[..|a|] == a;
  }

  lemma StepInv(s: State, a: Action)
    requires Inv(s) && Enabled(s, a)
    ensures Inv(Step(s, a))
  {
    if a.Write? {
      WrittenInv(s, a.cnt);
    }
  }

  lemma WrittenInv(s: State, cnt: nat)
    requires Inv(s) && Enabled(s, Write(cnt))
    ensures Inv(Written(s, cnt))
  {
    WrittenWire(s, cnt);
    WrittenTidy(s, cnt);
    hide WireInv, Tidy;
  }

  lemma WrittenTidy(s: State, cnt: nat)
    requires Tidy(s) && Enabled(s, Write(cnt))
    ensures Tidy(Written(s, cnt))
  {
    var r, s' := s.list[0], Written(s, cnt);
    if s.wcnt + cnt == |r.message[0]| && r.message[1..] == [] && r.final {
      forall i | 0 < i < |s'.list|
        ensures s'.list[i].sent == []
      {
        assert s'.list[i] == s.list[i + 1];
      }
    }
  }

  lemma WrittenWire(s: State, cnt: nat)
    requires Inv(s) && Enabled(s, Write(cnt))
    ensures WireInv(Written(s, cnt))
  {
    var r := s.list[0];
    hide Stream, Flat, Inv, WireInv, Written;
    if s.wcnt + cnt < |r.message[0]| {
      PartWritten(s, cnt);
    } else if r.message[1..] == [] && r.final {
      AllWritten(s, cnt);
    } else {
      MessageWritten(s, cnt);
    }
  }

  lemma PartWritten(s: State, cnt: nat)
    requires Inv(s) && Enabled(s, Write(cnt)) && s.wcnt + cnt < |s.list[0].message[0]|
    ensures WireInv(Written(s, cnt))
  {
    WireGrows(s, cnt);
    hide Stream, Flat, Inv;
    var msg := s.list[0].message[0];
    assert msg[..0] == [];
    assert HeadWritten(Written(s, cnt)) == Flat(s.list[0].sent) + msg[..s.wcnt + cnt];
  }

  lemma MessageWritten(s: State, cnt: nat)
    requires Inv(s) && Enabled(s, Write(cnt)) && s.wcnt + cnt == |s.list[0].message[0]|
    requires s.list[0].message[1..] != [] || !s.list[0].final
    ensures WireInv(Written(s, cnt))
  {
    WireGrows(s, cnt);
    hide Stream, Flat, Inv;
    var r := s.list[0];
    assert r.message[0][..|r.message[0]|] == r.message[0];
    HeadMoved(Written(s, cnt), r.sent, r.message[0]);
  }

  lemma HeadMoved(s: State, sent: seq<Text>, msg: Text)
    requires s.wcnt == 0 && s.list != [] && s.list[0].sent == sent + [msg]
    ensures HeadWritten(s) == Flat(sent) + msg
  {
    hide Flat;
    FlatOne(sent, msg);
    assert Flat(sent + [msg]) + [] == Flat(sent + [msg]);
  }

  lemma AllWritten(s: State, cnt: nat)
    requires Inv(s) && Enabled(s, Write(cnt)) && s.wcnt + cnt == |s.list[0].message[0]|
    requires s.list[0].message[1..] == [] && s.list[0].final
    ensures WireInv(Written(s, cnt))
  {
    WireGrows(s, cnt);
    NextUnsent(s);
    hide Stream, Flat, Inv;
    var r := s.list[0];
    assert r.message[0][..|r.message[0]|] == r.message[0];
    LastMessage(s.gone, r);
    FlatNone();
    assert HeadWritten(Written(s, cnt)) == [];
  }

  lemma NextUnsent(s: State)
    requires Inv(s) && s.list != []
    ensures s.list[1..] != [] ==> s.list[1..][0].sent == []
  {
  }

  lemma LastMessage(gone: seq<Resp>, r: Resp)
    requires r.message != [] && r.message[1..] == []
    ensures var r' := r.(message := r.message[1..], sent := r.sent + [r.message[0]]);
            Stream(gone + [r']) + [] == Stream(gone) + (Flat(r.sent) + r.message[0])
  {
    var r' := r.(message := r.message[1..], sent := r.sent + [r.message[0]]);
    assert Whole(r') == r.sent + [r.message[0]];
    StreamOne(gone, r');
    FlatOne(r.sent, r.message[0]);
  }

  lemma FlatNone()
    ensures Flat([]) == []
  {
  }

  lemma WireGrows(s: State, cnt: nat)
    requires Inv(s) && Enabled(s, Write(cnt))
    ensures var msg, n := s.list[0].message[0], s.wcnt + cnt;
            s.wire + msg[s.wcnt..n] == Stream(s.gone) + (Flat(s.list[0].sent) + msg[..n])
  {
    hide Stream, Flat;
    var r := s.list[0];
    var msg, n := r.message[0], s.wcnt + cnt;
    assert msg[..s.wcnt] + msg[s.wcnt..n] == msg[..n];
    Grows(s.wire, Stream(s.gone), Flat(r.sent), msg[..s.wcnt], msg[s.wcnt..n], msg[..n]);
  }

  lemma Grows(wire: Text, gone: Text, sent: Text, have: Text, part: Text, now: Text)
    requires wire == gone + (sent + have) && have + part == now
    ensures wire + part == gone + (sent + now)
  {
    Assoc(gone, sent + have, part);
    Assoc(sent, have, part);
  }

  /** The bytes written are a prefix of what the responses hold, in order. */
  lemma WirePrefix(s: State)
    requires Inv(s)
    ensures s.wire <= Stream(s.gone + s.list)
    ensures s.list == [] ==> s.wire == Stream(s.gone + s.list)
  {
    hide Stream, Flat;
    StreamConcat(s.gone, s.list);
    FlatNone();
    if s.list == [] {
      assert s.gone + s.list == s.gone;
    } else {
      var r, rest := s.list[0], s.list[1..];
      HeadFirst(r, rest);
      assert s.list == [r] + rest;
      if s.wcnt > 0 {
        FirstMessage(r);
        Prefix(Stream(s.gone), Flat(r.sent), r.message[0], s.wcnt, Flat(r.message[1..]), Stream(rest));
      } else {
        Prefix(Stream(s.gone), Flat(r.sent), [], 0, Flat(r.message), Stream(rest));
      }
    }
  }

  lemma HeadFirst(r: Resp, rest: seq<Resp>)
    ensures Stream([r] + rest) == Flat(r.sent) + Flat(r.message) + Stream(rest)
  {
    StreamConcat([r], rest);
    StreamOne([], r);
    assert [] + [r] == [r];
    FlatConcat(r.sent, r.message);
  }

  lemma FirstMessage(r: Resp)
    requires r.message != []
    ensures Flat(r.message) == r.message[0] + Flat(r.message[1..])
  {
    assert r.message == [r.message[0]] + r.message[1..];
    FlatConcat([r.message[0]], r.message[1..]);
    FlatOne([], r.message[0]);
    assert [] + [r.message[0]] == [r.message[0]];
  }

  lemma Prefix(a: Text, b: Text, m: Text, k: nat, c: Text, d: Text)
    requires k <= |m|
    ensures a + (b + m[..k]) <= a + (b + (m + c) + d)
    ensures a + (b + []) <= a + (b + c + d)
  {
  }

  // ----- the actions and the responses

  lemma EndedNext(actions: seq<Action>, a: Action, k: nat)
    ensures Ended(actions + [a], k) <==> Ended(actions, k) || (a.Final? && a.k == k)
  {
    var more := actions + [a];
    if Ended(actions, k) {
      var i :| 0 <= i < |actions| && actions[i].Final? && actions[i].k == k;
      assert more[i].Final? && more[i].k == k;
    }
    if a.Final? && a.k == k {
      assert more[|actions|].Final? && more[|actions|].k == k;
    }
    if Ended(more, k) {
      var i :| 0 <= i < |more| && more[i].Final? && more[i].k == k;
      assert i < |actions| ==> actions[i].Final? && actions[i].k == k;
    }
  }

  /** What an action gives a response that has not ended. */
  function Gift(a: Action, k: nat): seq<Text> {
    if a.Early? && a.k == k then [a.t]
    else if a.Final? && a.k == k && a.last.Some? then [a.last.value]
    else []
  }

  lemma GivenNext(actions: seq<Action>, a: Action, k: nat)
    ensures Given(actions + [a], k) == Given(actions, k) + if Ended(actions, k) then [] else Gift(a, k)
    ensures Requests(actions + [a]) == Requests(actions) + if a.Append? then 1 else 0
  {
    assert (actions + [a])[..|actions|] == actions;
  }

  lemma StepAgrees(actions: seq<Action>, s: State, a: Action)
    requires Inv(s) && Agrees(actions, s) && Enabled(s, a)
    ensures Agrees(actions + [a], Step(s, a))
  {
    hide Given, Ended, Requests;
    var s', more := Step(s, a), actions + [a];
    var n := |s.gone| + |s.list|;
    GivenNext(actions, a, 0);
    forall k: nat | k < n
      ensures AgreesAt(more, (s'.gone + s'.list)[k], k)
    {
      assert AgreesAt(actions, (s.gone + s.list)[k], k);
      EndedNext(actions, a, k);
      GivenNext(actions, a, k);
      StepAt(s, a, k);
    }
    forall k: nat | k >= n
      ensures Given(more, k) == [] && !Ended(more, k)
    {
      EndedNext(actions, a, k);
      GivenNext(actions, a, k);
    }
  }

  /** What a step does to a response that was there. */
  lemma StepAt(s: State, a: Action, k: nat)
    requires Inv(s) && Enabled(s, a) && k < |s.gone| + |s.list|
    ensures var r, r' := (s.gone + s.list)[k], (Step(s, a).gone + Step(s, a).list)[k];
            && Whole(r') == Whole(r) + (if r.final then [] else Gift(a, k))
            && (r'.final <==> r.final || (a.Final? && a.k == k))
  {
    hide Inv;
    var r := (s.gone + s.list)[k];
    if a.Write? {
      WriteAt(s, a.cnt, k);
    } else if !a.Append? && a.k == k && !r.final {
      assert r.sent + (r.message + Gift(a, k)) == r.sent + r.message + Gift(a, k);
    }
  }

  /** A write moves a message from one side of a response to the other, and at most the head out of the list. */
  lemma WriteAt(s: State, cnt: nat, k: nat)
    requires Enabled(s, Write(cnt)) && k < |s.gone| + |s.list|
    ensures var s' := Written(s, cnt);
            && |s'.gone| + |s'.list| == |s.gone| + |s.list|
            && Whole((s'.gone + s'.list)[k]) == Whole((s.gone + s.list)[k])
            && (s'.gone + s'.list)[k].final == (s.gone + s.list)[k].final
  {
    var r := s.list[0];
    assert r.sent + r.message == r.sent + [r.message[0]] + r.message[1..];
  }

  lemma {:induction false} AskedIs(actions: seq<Action>, rs: seq<Resp>, n: nat)
    requires n <= |rs| && forall k :: 0 <= k < n ==> Whole(rs[k]) == Given(actions, k)
    ensures Stream(rs[..n]) == Asked(actions, n)
  {
    if n > 0 {
      AskedIs(actions, rs, n - 1);
      assert rs[..n][..n - 1] == rs[..n - 1];
    }
  }

  lemma {:induction false} RunInv(actions: seq<Action>)
    requires Run(actions).Some?
    ensures Inv(Run(actions).value) && Agrees(actions, Run(actions).value)
    decreases |actions|
  {
    if actions != [] {
      var before, a := actions[..|actions| - 1], actions[|actions| - 1];
      RunInv(before);
      StepInv(Run(before).value, a);
      StepAgrees(before, Run(before).value, a);
      assert before + [a] == actions;
    }
  }

  /** In every run the bytes on the wire are a prefix of the messages asked for, response after response in the order of
      the requests, whatever the partial sends; and when no response is left they are all of them. */
  lemma InOrder(actions: seq<Action>)
    requires Run(actions).Some?
    ensures Run(actions).value.wire <= Asked(actions, Requests(actions))
    ensures Run(actions).value.list == [] ==> Run(actions).value.wire == Asked(actions, Requests(actions))
  {
    RunInv(actions);
    WireAsked(actions, Run(actions).value);
  }

  lemma GivenAll(actions: seq<Action>, s: State)
    requires Agrees(actions, s)
    ensures |s.gone + s.list| == Requests(actions)
    ensures forall k :: 0 <= k < |s.gone + s.list| ==> Whole((s.gone + s.list)[k]) == Given(actions, k)
  {
    hide Given, Ended, Requests;
    forall k | 0 <= k < |s.gone + s.list|
      ensures Whole((s.gone + s.list)[k]) == Given(actions, k)
    {
      assert AgreesAt(actions, (s.gone + s.list)[k], k);
    }
  }

  lemma WireAsked(actions: seq<Action>, s: State)
    requires Inv(s) && Agrees(actions, s)
    ensures s.wire <= Asked(actions, Requests(actions))
    ensures s.list == [] ==> s.wire == Asked(actions, Requests(actions))
  {
    WirePrefix(s);
    var rs := s.gone + s.list;
    GivenAll(actions, s);
    hide Stream, Given, Asked, WireInv, Tidy, Ended, Requests;
    AskedIs(actions, rs, |rs|);
    assert rs[..|rs|] == rs;
  }
}
