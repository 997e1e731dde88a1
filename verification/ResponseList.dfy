/** The list of responses of a connection, linked through the responses with a head and a tail pointer (con.c), and the
    write that takes the head off and puts it back.  Each method is a step of the machine in Responses. */
module ResponseList {
  import opened Bytes
  import opened Wrappers
  import opened Responses

  class Res {
    var next: Res?
    var message: seq<Text>  // the chain of texts
    var final: bool
    var close: bool
    ghost var sent: seq<Text>

    constructor (close: bool)
      ensures next == null && Value() == Resp([], [], false, close)
    {
      next, message, final, sent := null, [], false, [];
      this.close := close;
    }

    ghost function Value(): Resp
      reads this
    {
      Resp(message, sent, final, close)
    }

    /** agoo_res_message_push: dropped once the response is final. */
    method MessagePush(t: Option<Text>)
      modifies this`message, this`final
      ensures Value() == Extended(old(Value()), t, true)
    {
      if !final {
        if t.Some? {
          message := message + [t.value];
        }
        final := true;
      }
      assert Value().message == Extended(old(Value()), t, true).message;
    }

    /** agoo_res_add_early, with the text of the hints. */
    method AddEarly(t: Text)
      modifies this`message, this`final
      ensures Value() == Extended(old(Value()), Some(t), false)
    {
      if !final {
        message := message + [t];
        final := false;
      }
    }

    /** agoo_res_message_next: lets the first message go and gives the next. */
    method MessageNext() returns (t: Option<Text>)
      modifies this`message, this`sent
      ensures old(message) != [] ==> message == old(message)[1..] && sent == old(sent) + [old(message)[0]]
      ensures old(message) == [] ==> message == [] && sent == old(sent)
      ensures t == if message == [] then None else Some(message[0])
    {
      if message != [] {
        sent := sent + [message[0]];
        message := message[1..];
      }
      t := if message == [] then None else Some(message[0]);
    }
  }

  ghost function Values(list: seq<Res>): (vs: seq<Resp>)
    reads list
    ensures |vs| == |list| && forall i :: 0 <= i < |list| ==> vs[i] == list[i].Value()
  {
    seq(|list|, i requires 0 <= i < |list| reads list => list[i].Value())
  }

  /** What goes out of a response `r`, when `w` bytes of its first message were out before. */
  ghost predicate Sent(r: Resp, w: nat, wire: Text, cnt: nat, r': Resp, w': nat, wire': Text, done: bool)
    requires r.message != [] && w + cnt <= |r.message[0]|
  {
    && wire' == wire + r.message[0][w..w + cnt]
    && if w + cnt < |r.message[0]| then w' == w + cnt && r' == r && !done
       else
         && w' == 0 && r' == r.(message := r.message[1..], sent := r.sent + [r.message[0]])
         && (done <==> r'.message == [] && r.final)
  }

  lemma SentIs(s: State, cnt: nat, r': Resp, w': nat, wire': Text, done: bool)
    requires Enabled(s, Write(cnt)) && Sent(s.list[0], s.wcnt, s.wire, cnt, r', w', wire', done)
    ensures Written(s, cnt) == if done then State(s.gone + [r'], s.list[1..], w', wire', s.closed || r'.close)
                               else State(s.gone, [r'] + s.list[1..], w', wire', s.closed)
  {
  }

  class Con {
    var resHead: Res?
    var resTail: Res?
    var wcnt: nat
    ghost var list: seq<Res>
    ghost var gone: seq<Resp>
    ghost var wire: Text
    ghost var closed: bool

    constructor ()
      ensures Valid() && list == [] && View() == START
    {
      resHead, resTail, wcnt := null, null, 0;
      list, gone, wire, closed := [], [], [], false;
    }

    /** The pointers spell the list: the head is its first, the tail its last, each next the one behind. */
    ghost predicate Valid()
      reads this`resHead, this`resTail, this`list, list
    {
      && (forall i, j :: 0 <= i < j < |list| ==> list[i] != list[j])
      && resHead == (if list == [] then null else list[0])
      && resTail == (if list == [] then null else list[|list| - 1])
      && (forall i :: 0 <= i < |list| - 1 ==> list[i].next == list[i + 1])
      && (list != [] ==> list[|list| - 1].next == null)
    }

    ghost function View(): State
      reads this, list
    {
      State(gone, Values(list), wcnt, wire, closed)
    }

    method Append(res: Res)
      requires Valid() && res !in list && res.next == null
      modifies this`resHead, this`resTail, this`list, list
      ensures Valid() && list == old(list) + [res]
      ensures Values(list) == old(Values(list)) + [res.Value()] && res.Value() == old(res.Value())
    {
      if resTail == null {
        resHead := res;
      } else {
        resTail.next := res;
      }
      resTail := res;
      list := list + [res];
    }

    /** A response just created takes its place behind the others. */
    method AppendNew(close: bool) returns (res: Res)
      requires Valid()
      modifies this`resHead, this`resTail, this`list, list
      ensures Valid() && fresh(res) && list == old(list) + [res]
      ensures View() == Step(old(View()), Action.Append(close))
    {
      res := new Res(close);
      Append(res);
    }

    method Prepend(res: Res)
      requires Valid() && res !in list
      modifies this`resHead, this`resTail, this`list, res`next
      ensures Valid() && list == [res] + old(list)
      ensures Values(list) == [res.Value()] + old(Values(list))
    {
      res.next := resHead;
      resHead := res;
      if resTail == null {
        resTail := res;
      }
      list := [res] + list;
    }

    method Pop() returns (res: Res?)
      requires Valid()
      modifies this`resHead, this`resTail, this`list
      ensures Valid() && (res == null <==> old(list) == [])
      ensures old(list) != [] ==> res == old(list)[0] && res !in list && list == old(list)[1..]
      ensures Values(list) == if old(list) == [] then [] else old(Values(list))[1..]
    {
      res := resHead;
      if res != null {
        resHead := res.next;
        if res == resTail {
          resTail := null;
        }
        list := list[1..];
      }
    }

    /** agoo_con_http_write, when `cnt` bytes of the head's message go out; false asks for the connection to close. */
    method HttpWrite(cnt: nat) returns (keep: bool)
      requires Valid() && Enabled(View(), Write(cnt))
      modifies this, list
      ensures Valid() && View() == Written(old(View()), cnt)
      ensures keep == !closed
    {
      hide Sent, Written, Valid;
      ghost var before := View();
      var res := Pop();
      var done := Send(res, cnt);
      SentIs(before, cnt, res.Value(), wcnt, wire, done);
      keep := Conclude(res, done);
    }

    /** A response that has been sent is done with, and any other goes back to the front. */
    method Conclude(res: Res, done: bool) returns (keep: bool)
      requires Valid() && res !in list && !closed
      modifies this`gone, this`closed, this`resHead, this`resTail, this`list, res`next
      ensures Valid() && keep == !closed
      ensures View() == if done then
          State(old(gone) + [old(res.Value())], old(Values(list)), wcnt, wire, old(res.close))
                        else State(old(gone), [old(res.Value())] + old(Values(list)), wcnt, wire, false)
    {
      if done {
        hide Values;
        closed := res.close;
        gone := gone + [res.Value()];
        keep := !res.close;
      } else {
        Prepend(res);
        keep := true;
      }
    }

    /** Part of the first message goes out; true when that was the last of the response. */
    method Send(res: Res, cnt: nat) returns (done: bool)
      requires Valid() && res !in list && res.message != [] && wcnt + cnt <= |res.message[0]|
      modifies this`wire, this`wcnt, res`message, res`sent
      ensures Valid() && Values(list) == old(Values(list))
      ensures Sent(old(res.Value()), old(wcnt), old(wire), cnt, res.Value(), wcnt, wire, done)
    {
      hide Valid, Values;
      var message := res.message[0];
      wire := wire + message[wcnt..wcnt + cnt];
      wcnt := wcnt + cnt;
      done := false;
      if wcnt == |message| {
        var next := res.MessageNext();
        wcnt := 0;
        done := next.None? && res.final;
      }
    }
  }
}
