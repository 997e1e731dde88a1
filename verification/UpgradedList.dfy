/** The server's doubly linked list of upgraded connections and the reference counts kept in them (server.c,
    upgraded.c, pub.c). */
module UpgradedList {
  class Upgraded {
    var next: Upgraded?
    var prev: Upgraded?
    var attached: bool   // con is not NULL
    var refCnt: int
    var destroyed: bool  // on_destroy was called

    /** agoo_upgraded_create: one reference, for the connection. */
    constructor ()
      ensures next == null && prev == null && attached && refCnt == 1 && !destroyed
    {
      next, prev, attached, refCnt, destroyed := null, null, true, 1, false;
    }
  }

  datatype Pub = Pub(id: nat, up: Upgraded?)

  class Server {
    var upList: Upgraded?
    var pubQueues: seq<seq<Pub>>  // one for each connection loop
    ghost var ups: seq<Upgraded>

    constructor (loops: nat)
      requires loops > 0
      ensures Valid() && ups == [] && |pubQueues| == loops && forall l :: 0 <= l < loops ==> pubQueues[l] == []
    {
      upList, ups := null, [];
      pubQueues := seq(loops, _ => []);
    }

    /** The pointers spell the list both ways. */
    ghost predicate Valid()
      reads this`upList, this`ups, ups
    {
      && (forall i, j :: 0 <= i < j < |ups| ==> ups[i] != ups[j])
      && upList == (if ups == [] then null else ups[0])
      && (ups != [] ==> ups[0].prev == null && ups[|ups| - 1].next == null)
      && (forall i :: 0 <= i < |ups| - 1 ==> ups[i].next == ups[i + 1])
      && (forall i :: 0 < i < |ups| ==> ups[i].prev == ups[i - 1])
    }

    /** agoo_server_add_upgraded: in front. */
    method AddUpgraded(up: Upgraded)
      requires Valid() && up !in ups && up.next == null && up.prev == null
      modifies this`upList, this`ups, ups, up
      ensures Valid() && ups == [up] + old(ups)
      ensures forall u :: u in ups ==>
                u.refCnt == old(u.refCnt) && u.attached == old(u.attached) && u.destroyed == old(u.destroyed)
    {
      if upList == null {
        up.next := null;
      } else {
        upList.prev := up;
      }
      up.next := upList;
      upList := up;
      ups := [up] + ups;
    }

    /** destroy: the object is taken out of the list, wherever it stands, and only it. */
    method Destroy(up: Upgraded, ghost k: nat)
      requires Valid() && k < |ups| && ups[k] == up
      modifies this`upList, this`ups, ups
      ensures Valid() && ups == old(ups)[..k] + old(ups)[k + 1..] && up !in ups && up.destroyed
      ensures forall u :: u in old(ups) ==> u.refCnt == old(u.refCnt) && u.attached == old(u.attached)
      ensures forall u :: u in ups ==> u.destroyed == old(u.destroyed)
    {
      up.destroyed := true;
      Unlink(up, k);
    }

    method Unlink(up: Upgraded, ghost k: nat)
      requires Valid() && k < |ups| && ups[k] == up
      modifies this`upList, this`ups, ups`next, ups`prev
      ensures Valid() && ups == old(ups)[..k] + old(ups)[k + 1..] && up !in ups
    {
      ghost var was := ups;
      assert k + 1 < |was| ==> was[k].next == was[k + 1] && was[k + 1].prev == was[k];
      assert k > 0 ==> was[k].prev == was[k - 1] && was[k - 1].next == was[k];
      if up.prev == null {
        upList := up.next;
        if up.next != null {
          up.next.prev := null;
        }
      } else {
        up.prev.next := up.next;
        if up.next != null {
          up.next.prev := up.prev;
        }
      }
      ups := ups[..k] + ups[k + 1..];
      assert forall i :: 0 <= i < |ups| ==> ups[i] == if i < k then was[i] else was[i + 1];
    }

    /** agoo_upgraded_release: one reference less; the last destroys. */
    method Release(up: Upgraded, ghost k: nat)
      requires Valid() && k < |ups| && ups[k] == up
      modifies this`upList, this`ups, ups
      ensures Valid() && up.refCnt == old(up.refCnt) - 1
      ensures if old(up.refCnt) <= 1 then up.destroyed && ups == old(ups)[..k] + old(ups)[k + 1..]
              else up.destroyed == old(up.destroyed) && ups == old(ups)
      ensures forall u :: u in old(ups) && u != up ==> u.refCnt == old(u.refCnt) && u.destroyed == old(u.destroyed)
      ensures forall u :: u in old(ups) ==> u.attached == old(u.attached)
    {
      var was := up.refCnt;
      up.refCnt := was - 1;
      if was <= 1 {
        Destroy(up, k);
      }
    }

    /** agoo_upgraded_release_con: the connection lets go first. */
    method ReleaseCon(up: Upgraded, ghost k: nat)
      requires Valid() && k < |ups| && ups[k] == up
      modifies this`upList, this`ups, ups
      ensures Valid() && up.refCnt == old(up.refCnt) - 1 && !up.attached
      ensures if old(up.refCnt) <= 1 then up.destroyed && ups == old(ups)[..k] + old(ups)[k + 1..]
              else up.destroyed == old(up.destroyed) && ups == old(ups)
      ensures forall u :: u in old(ups) && u != up ==>
                u.refCnt == old(u.refCnt) && u.destroyed == old(u.destroyed) && u.attached == old(u.attached)
    {
      up.attached := false;
      Release(up, k);
    }

    /** agoo_server_publish: a copy for every loop but the last, which gets the publication itself.  The count of the
        upgraded connection goes up by one for each copy. */
    method Publish(pub: Pub)
      requires |pubQueues| > 0
      modifies this`pubQueues, if pub.up == null then {} else {pub.up}
      ensures |pubQueues| == old(|pubQueues|)
      ensures forall l :: 0 <= l < |pubQueues| ==> pubQueues[l] == old(pubQueues)[l] + [pub]
      ensures pub.up != null ==>
                && pub.up.refCnt == old(pub.up.refCnt) + |pubQueues| - 1
                && pub.up.next == old(pub.up.next) && pub.up.prev == old(pub.up.prev)
                && pub.up.attached == old(pub.up.attached) && pub.up.destroyed == old(pub.up.destroyed)
    {
      var loop := 0;
      while loop < |pubQueues|
        invariant 0 <= loop <= |pubQueues| == old(|pubQueues|)
        invariant forall l :: 0 <= l < |pubQueues| ==>
                    pubQueues[l] == old(pubQueues)[l] + if l < loop then [pub] else []
        invariant pub.up != null ==>
                    && pub.up.refCnt == old(pub.up.refCnt) + (if loop < |pubQueues| then loop else loop - 1)
                    && pub.up.next == old(pub.up.next) && pub.up.prev == old(pub.up.prev)
                    && pub.up.attached == old(pub.up.attached) && pub.up.destroyed == old(pub.up.destroyed)
      {
        if loop == |pubQueues| - 1 {
          pubQueues := pubQueues[loop := pubQueues[loop] + [pub]];
        } else {
          var copy := Dup(pub);
          pubQueues := pubQueues[loop := pubQueues[loop] + [copy]];
        }
        loop := loop + 1;
      }
    }

    /** agoo_pub_dup: the copy holds a reference of its own. */
    static method Dup(src: Pub) returns (p: Pub)
      modifies if src.up == null then {} else {src.up}
      ensures p == src
      ensures src.up != null ==>
                && src.up.refCnt == old(src.up.refCnt) + 1
                && src.up.next == old(src.up.next) && src.up.prev == old(src.up.prev)
                && src.up.attached == old(src.up.attached) && src.up.destroyed == old(src.up.destroyed)
    {
      p := Pub(src.id, src.up);
      if src.up != null {
        src.up.refCnt := src.up.refCnt + 1;
      }
    }
  }
}
