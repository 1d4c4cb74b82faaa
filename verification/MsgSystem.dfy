/** The message queues of a system (ipc/msg.c): the loops of msgsnd, msgrcv and queue removal, and the
    system-wide counts of queued messages and bytes. Each method is one critical section; sleeping
    is the boundary between two. */
module MsgSystem {
  import opened Lists
  import opened MsgSelect
  import opened MsgQueue
  import MsgBody

  datatype SendReply = Sent | Invalid | NoQueue | Again | MustSleep

  lemma {:induction false} FirstFitIs(listed: seq<nat>, sleepers: map<nat, Sleeper>, m: Message, k: nat)
    requires k <= |listed| && (k < |listed| ==> Fits(sleepers, listed[k], m))
    requires forall j :: 0 <= j < k ==> !Fits(sleepers, listed[j], m)
    ensures FirstFit(listed, sleepers, m) == k
  {
    if k > 0 {
      assert !Fits(sleepers, listed[0], m);
      FirstFitIs(listed[1..], sleepers, m, k - 1);
    }
  }

  lemma {:induction false} UnaskingNext(listed: seq<nat>, sleepers: map<nat, Sleeper>, m: Message, i: nat)
    requires i < |listed|
    ensures Unasking(listed[..i + 1], sleepers, m) ==
      if Asks(sleepers, listed[i], m) then Unasking(listed[..i], sleepers, m)
        else Unasking(listed[..i], sleepers, m) + [listed[i]]
  {
    assert listed[..i + 1][..i] == listed[..i];
  }

  /** The first `i` receivers were offered the message, and none of them had room for it. */
  ghost predicate Offered(listed: seq<nat>, sleepers: map<nat, Sleeper>, m: Message, i: nat, slept: map<nat, Sleeper>)
    requires i <= |listed|
  {
    && slept.Keys == sleepers.Keys
    && (forall j :: 0 <= j < i ==> !Fits(sleepers, listed[j], m))
    && (forall x :: x in sleepers ==>
      slept[x] == if x in listed[..i] && Asks(sleepers, x, m) then sleepers[x].(slot := TooBig) else sleepers[x])
  }

  lemma {:induction false} OfferedAt(listed: seq<nat>, sleepers: map<nat, Sleeper>, m: Message, i: nat,
          slept: map<nat, Sleeper>)
    requires i < |listed| && Offered(listed, sleepers, m, i, slept) && listed[i] in sleepers && NoDuplicates(listed)
    ensures listed[i] in slept && slept[listed[i]] == sleepers[listed[i]] && listed[i] !in listed[..i]
  {
    CutAt(listed, i);
  }

  lemma {:induction false} OfferedNext(listed: seq<nat>, sleepers: map<nat, Sleeper>, m: Message, i: nat,
          slept: map<nat, Sleeper>)
    requires i < |listed| && Offered(listed, sleepers, m, i, slept) && listed[i] in sleepers && listed[i] in slept
    requires !Fits(sleepers, listed[i], m)
    ensures !Asks(sleepers, listed[i], m) ==> Offered(listed, sleepers, m, i + 1, slept)
    ensures Asks(sleepers, listed[i], m) ==>
      Offered(listed, sleepers, m, i + 1, slept[listed[i] := slept[listed[i]].(slot := TooBig)])
  {
    hide Fits, Asks;
    var a := listed[..i];
    assert listed[..i + 1] == a + [listed[i]];
    assert forall x :: x in listed[..i + 1] <==> x in a || x == listed[i];
  }

  lemma {:induction false} OfferTaken(listed: seq<nat>, sleepers: map<nat, Sleeper>, m: Message, i: nat,
          slept: map<nat, Sleeper>)
    requires i < |listed| && Offered(listed, sleepers, m, i, slept) && listed[i] in slept && listed[i] !in listed[..i]
    requires Fits(sleepers, listed[i], m)
    ensures FirstFit(listed, sleepers, m) == i
    ensures slept[listed[i] := slept[listed[i]].(slot := Got(m))] == Answered(listed, sleepers, m, i)
  {
    hide Fits, Asks, FirstFit;
    FirstFitIs(listed, sleepers, m, i);
  }

  lemma {:induction false} OfferedAll(listed: seq<nat>, sleepers: map<nat, Sleeper>, m: Message,
          slept: map<nat, Sleeper>)
    requires Offered(listed, sleepers, m, |listed|, slept)
    ensures FirstFit(listed, sleepers, m) == |listed| && slept == Answered(listed, sleepers, m, |listed|)
  {
    FirstFitIs(listed, sleepers, m, |listed|);
  }

  /** Offers a message to the receivers in turn. Those that ask for it but have no room learn so;
      the first that has room takes it. */
  method PipelinedSend(listed: seq<nat>, sleepers: map<nat, Sleeper>, m: Message)
    returns (left: seq<nat>, slept: map<nat, Sleeper>, taken: bool)
    requires NoDuplicates(listed) && forall x :: x in listed ==> x in sleepers
    ensures var k := FirstFit(listed, sleepers, m);
      && taken == (k < |listed|) && left == Remaining(listed, sleepers, m, k)
      && slept == Answered(listed, sleepers, m, k)
  {
    hide Unasking, Offered, FirstFit, Answered;
    left, slept := [], sleepers;
    var i := 0;
    NoneUnasking(sleepers, m);
    assert listed[..0] == [];
    assert Offered(listed, sleepers, m, 0, slept) by { OfferedNone(listed, sleepers, m); }
    while i < |listed|
      invariant i <= |listed| && left == Unasking(listed[..i], sleepers, m) && Offered(listed, sleepers, m, i, slept)
      invariant slept.Keys == sleepers.Keys
    {
      var x := listed[i];
      assert x in listed;
      OfferedAt(listed, sleepers, m, i, slept);
      UnaskingNext(listed, sleepers, m, i);
      if Fits(sleepers, x, m) {
        OfferTaken(listed, sleepers, m, i, slept);
      } else {
        OfferedNext(listed, sleepers, m, i, slept);
      }
      if Matches(m, slept[x].req) {
        if MaxSize(slept[x].req) < m.ts {
          slept := slept[x := slept[x].(slot := TooBig)];
        } else {
          slept := slept[x := slept[x].(slot := Got(m))];
          left := left + listed[i + 1..];
          return left, slept, true;
        }
      } else {
        left := left + [x];
      }
      i := i + 1;
    }
    OfferedAll(listed, sleepers, m, slept);
    taken := false;
    assert listed[..i] == listed && left + [] == left;
  }

  lemma {:induction false} OfferedNone(listed: seq<nat>, sleepers: map<nat, Sleeper>, m: Message)
    ensures Offered(listed, sleepers, m, 0, sleepers)
  {}

  lemma {:induction false} NoneUnasking(sleepers: map<nat, Sleeper>, m: Message)
    ensures Unasking([], sleepers, m) == []
  {}

  /** expunge_all: every receiver on the list learns that the queue is gone. */
  method ExpungeAll(listed: seq<nat>, sleepers: map<nat, Sleeper>) returns (slept: map<nat, Sleeper>)
    requires forall x :: x in listed ==> x in sleepers
    ensures slept.Keys == sleepers.Keys
    ensures forall x :: x in sleepers ==> slept[x] == if x in listed then sleepers[x].(slot := Removed) else sleepers[x]
  {
    slept := sleepers;
    var i := 0;
    while i < |listed|
      invariant i <= |listed| && slept.Keys == sleepers.Keys
      invariant forall x :: x in sleepers ==>
        slept[x] == if x in listed[..i] then sleepers[x].(slot := Removed) else sleepers[x]
    {
      assert listed[i] in listed;
      assert listed[..i + 1] == listed[..i] + [listed[i]];
      slept := slept[listed[i] := slept[listed[i]].(slot := Removed)];
      i := i + 1;
    }
    assert listed[..i] == listed;
  }

  // ---- totals ----

  /** The bytes of all queued messages. */
  function Bytes(queues: seq<Queue>): int {
    if queues == [] then 0 else Bytes(queues[..|queues| - 1]) + Size(queues[|queues| - 1].messages)
  }

  /** How many messages are queued. */
  function Headers(queues: seq<Queue>): int {
    if queues == [] then 0 else Headers(queues[..|queues| - 1]) + |queues[|queues| - 1].messages|
  }

  lemma {:induction false} TotalsChange(queues: seq<Queue>, i: nat, q: Queue)
    requires i < |queues|
    ensures Bytes(queues[i := q]) == Bytes(queues) - Size(queues[i].messages) + Size(q.messages)
    ensures Headers(queues[i := q]) == Headers(queues) - |queues[i].messages| + |q.messages|
  {
    var n := |queues| - 1;
    if i == n {
      assert queues[i := q][..n] == queues[..n];
    } else {
      TotalsChange(queues[..n], i, q);
      assert queues[i := q][..n] == queues[..n][i := q];
    }
  }

  class MsgIds {
    var queues: seq<Queue>
    var msgBytes: int
    var msgHdrs: int
    ghost var logs: seq<Log>

    ghost predicate Valid()
      reads this
    {
      && QueuesOk(queues, logs)
      && msgBytes == Bytes(queues) && msgHdrs == Headers(queues)
    }

    constructor ()
      ensures Valid() && queues == []
    {
      queues, msgBytes, msgHdrs, logs := [], 0, 0, [];
    }

    /** newque. */
    method NewQueue() returns (id: nat)
      requires Valid()
      modifies this
      ensures Valid() && id == |old(queues)| && queues == old(queues) + [NEW_QUEUE] && logs == old(logs) + [NEW_LOG]
    {
      hide QueuesOk, Bytes, Headers;
      id := |queues|;
      QueueAdded(queues, logs);
      queues, logs := queues + [NEW_QUEUE], logs + [NEW_LOG];
    }

    /** Only queue `id` changed, by the step `e`. */
    twostate predicate Stepped(id: nat, e: Event)
      requires id < |old(queues)| && |old(logs)| == |old(queues)|
      reads this
    {
      && OnlyAt(id)
      && Step(old(queues[id]), old(logs[id]), e, queues[id], logs[id])
    }

    twostate predicate OnlyAt(id: nat)
      requires id < |old(queues)| && |old(logs)| == |old(queues)|
      reads this
    {
      && |logs| == |queues| == |old(queues)|
      && queues == old(queues)[id := queues[id]] && logs == old(logs)[id := logs[id]]
    }

    /** One attempt of sys_msgsnd; `n` identifies the new message. A sender that finds no room
        sleeps and tries again later. The totals change only when the message is queued. */
    method MsgSnd(id: nat, n: nat, mtype: int, text: seq<int>, nowait: bool, ctlmax: nat)
      returns (r: SendReply, m: Message)
      requires Valid() && id < |queues| && mtype <= LONG_MAX && ctlmax <= INT_MAX && n == |logs[id].accepted|
      modifies this
      ensures Valid() && m.id == n && m.mtype == mtype && MsgBody.Text(m.head, m.segs) == text && m.ts == |text|
      ensures r != Sent ==> queues == old(queues) && logs == old(logs)
      ensures r == Invalid <==> |text| > ctlmax || mtype < 1
      ensures r == NoQueue <==> |text| <= ctlmax && mtype >= 1 && !old(queues[id]).alive
      ensures r == Sent <==>
        && |text| <= ctlmax && mtype >= 1 && old(queues[id]).alive
        && |text| + old(queues[id]).cbytes <= old(queues[id]).qbytes && old(queues[id]).qnum < old(queues[id]).qbytes
      ensures r == Again || r == MustSleep <==>
        && |text| <= ctlmax && mtype >= 1 && old(queues[id]).alive
        && (|text| + old(queues[id]).cbytes > old(queues[id]).qbytes || old(queues[id]).qnum >= old(queues[id]).qbytes)
      ensures r == Again ==> nowait
      ensures r == MustSleep ==> !nowait
      ensures r == Sent ==> Stepped(id, Send(m)) && logs[id].accepted == old(logs[id]).accepted + [m]
    {
      hide Inv, Accept, AcceptLog, MsgBody.Packed, MsgBody.Text, Size, QueuesOk, Bytes, Headers;
      var head, segs := MsgBody.LoadMsg(text);
      m := Message(n, mtype, |text|, head, segs);
      if |text| > ctlmax || mtype < 1 { return Invalid, m; }
      if !queues[id].alive { return NoQueue, m; }
      var q := queues[id];
      if |text| + q.cbytes > q.qbytes || 1 + q.qnum > q.qbytes {
        return if nowait then Again else MustSleep, m;
      }
      InvAt(queues, logs, id);
      ghost var q0, log := q, AcceptLog(q, logs[id], m);
      InvLists(q, logs[id]);
      assert SendOk(q, logs[id], m);
      SendKeepsInv(q, logs[id], m);
      var taken;
      q, taken := Deliver(q, m);
      if !taken {
        msgBytes := msgBytes + |text|;
        msgHdrs := msgHdrs + 1;
        SizeNext(q0.messages, m);
      }
      TotalsChange(queues, id, q);
      OneChanged(queues, logs, id, q, log);
      StepAccepts(q0, logs[id], Send(m), q, log);
      queues, logs := queues[id := q], logs[id := log];
      r := Sent;
    }

    /** A search of a queue by call `x`: a message that is found leaves the queue and the totals. */
    method Search(id: nat, x: nat, r: Request, nowait: bool) returns (reply: Reply)
      requires Valid() && id < |queues| && queues[id].alive && x !in queues[id].sleepers
      modifies this
      ensures Valid() && OnlyAt(id) && reply != IdRemoved
      ensures Searched(old(queues[id]), old(logs[id]), x, r, nowait, queues[id], logs[id], reply)
    {
      hide Inv, Size, QueuesOk, Bytes, Headers, Searched;
      InvAt(queues, logs, id);
      var q, took;
      ghost var log;
      q, log, reply, took := SearchQueue(queues[id], logs[id], x, r, nowait);
      if took.Some? {
        msgBytes := msgBytes - took.value.ts;
        msgHdrs := msgHdrs - 1;
      }
      TotalsChange(queues, id, q);
      OneChanged(queues, logs, id, q, log);
      queues, logs := queues[id := q], logs[id := log];
    }

    /** One search of sys_msgrcv by call `x`. */
    method MsgRcv(id: nat, x: nat, msgtyp: int, except: bool, msgsz: nat, noerror: bool, nowait: bool)
      returns (reply: Reply)
      requires Valid() && id < |queues| && x !in queues[id].sleepers
      modifies this
      ensures Valid() && (reply == IdRemoved <==> !old(queues[id]).alive)
      ensures reply == IdRemoved ==> queues == old(queues) && logs == old(logs)
      ensures reply != IdRemoved ==>
        var (mode, mtype) := ConvertMode(msgtyp, except);
        var r := Request(mode, mtype, msgsz, noerror);
        && Stepped(id, Receive(x, r, nowait))
        && Searched(old(queues[id]), old(logs[id]), x, r, nowait, queues[id], logs[id], reply)
      ensures reply.Received? ==>
        var (was, now) := (old(logs[id]), logs[id]);
        && |now.delivered| == |was.delivered| + 1
        && var n := now.delivered[|was.delivered|];
           && n < |was.accepted| && n !in was.delivered && reply.mtype == was.accepted[n].mtype
           && var text := MsgBody.Text(was.accepted[n].head, was.accepted[n].segs);
              reply.text == text[..Least(msgsz, |text|)] && (noerror || |text| <= msgsz)
      ensures reply.Received? ==>
        var n := logs[id].delivered[|old(logs[id]).delivered|];
        var (mode, mtype) := ConvertMode(msgtyp, except);
        && old(logs[id]).accepted[n] in old(queues[id]).messages && TestMsg(old(logs[id]).accepted[n], mtype, mode)
        && forall m :: m in old(queues[id]).messages && TestMsg(m, mtype, mode) ==>
             (msgtyp < 0 && reply.mtype < m.mtype) || ((msgtyp < 0 ==> reply.mtype == m.mtype) && n <= m.id)
      ensures reply == NoMessage || reply == Sleeps ==>
        && (nowait <==> reply == NoMessage)
        && forall m :: m in old(queues[id]).messages ==>
            !TestMsg(m, ConvertMode(msgtyp, except).1, ConvertMode(msgtyp, except).0)
      ensures reply == TooLong ==> queues == old(queues) && !noerror
      ensures reply == Sleeps ==>
        && queues[id].messages == old(queues[id]).messages && queues[id].listed == old(queues[id]).listed + [x]
        && x in queues[id].sleepers && queues[id].sleepers[x].slot == Waiting
        && queues[id].sleepers == old(queues[id]).sleepers[x := queues[id].sleepers[x]]
        && var r := queues[id].sleepers[x].req;
           (r.mode, r.mtype) == ConvertMode(msgtyp, except) && r.msgsz == msgsz && r.noerror == noerror
    {
      hide Inv, Searched, QueuesOk, Bytes, Headers, MsgBody.Text;
      InvAt(queues, logs, id);
      if !queues[id].alive { return IdRemoved; }
      var (mode, mtype) := ConvertMode(msgtyp, except);
      reply := Search(id, x, Request(mode, mtype, msgsz, noerror), nowait);
      SearchMisses(old(queues[id]), old(logs[id]), x, Request(mode, mtype, msgsz, noerror), nowait,
        queues[id], logs[id], reply);
      if reply.Received? {
        ghost var n := SearchHands(old(queues[id]), old(logs[id]), x, Request(mode, mtype, msgsz, noerror), nowait,
          queues[id], logs[id], reply);
      }
    }

    /** Call `x` of sys_msgrcv goes on after its sleep. A message it was handed never was in the
        totals. It finds its queue gone only together with the word for it. */
    method WakeReceiver(id: nat, x: nat, signalled: bool) returns (reply: Reply)
      requires Valid() && id < |queues| && x in queues[id].sleepers
      modifies this
      ensures Valid() && Stepped(id, Wake(x, signalled))
      ensures Woken(old(queues[id]), old(logs[id]), x, signalled, queues[id], logs[id], reply)
      ensures reply.Received? ==>
        var (was, now) := (old(logs[id]), logs[id]);
        && |now.delivered| == |was.delivered| + 1
        && var n := now.delivered[|was.delivered|];
           && n < |was.accepted| && n !in was.delivered && reply.mtype == was.accepted[n].mtype
           && var text := MsgBody.Text(was.accepted[n].head, was.accepted[n].segs);
              reply.text == text[..Least(old(queues[id]).sleepers[x].req.msgsz, |text|)] &&
                (old(queues[id]).sleepers[x].req.noerror || |text| <= old(queues[id]).sleepers[x].req.msgsz)
      ensures var slot := old(queues[id]).sleepers[x].slot;
        && (slot.Got? ==> reply.Received?)
        && (slot == TooBig ==> reply == TooLong)
        && (slot == Removed ==> reply == IdRemoved)
        && (slot == Waiting && signalled ==> reply == Interrupted)
        && (slot == Waiting && !signalled ==> reply != Interrupted && reply != IdRemoved && reply != NoMessage)
      ensures reply == Sleeps ==>
        var rest := old(queues[id]).listed;
        && x in rest && queues[id].listed == Without(rest, x) + [x]
        && queues[id].sleepers == old(queues[id]).sleepers
    {
      hide Inv, Searched, Without, Size, QueuesOk, Bytes, Headers, Formed;
      InvAt(queues, logs, id);
      var q := queues[id];
      ghost var log := logs[id];
      var s := q.sleepers[x];
      GoneKeepsInv(q, log, x);
      var u := q.(sleepers := q.sleepers - {x});
      if s.slot == Waiting {
        WaitingIsAlive(q, log, x);
        u := u.(listed := Without(q.listed, x));
        assert u == OffList(q, x);
      } else {
        NotListed(q, log, x);
      }
      match s.slot {
        case Got(m) =>
          InvHeld(q, log, x);
          log := DeliverLog(log, m.id);
          var text := CopyOut(m, s.req);
          reply := Received(m.mtype, text);
        case TooBig => reply := TooLong;
        case Removed => reply := IdRemoved;
        case Waiting => reply := Interrupted;
      }
      TotalsChange(queues, id, u);
      OneChanged(queues, logs, id, u, log);
      queues, logs := queues[id := u], logs[id := log];
      if s.slot == Waiting && !signalled {
        reply := Search(id, x, s.req, false);
        SearchMisses(u, log, x, s.req, false, queues[id], logs[id], reply);
        assert u.sleepers[x := Sleeper(s.req, Waiting)] == q.sleepers;
        ListedWaits(old(queues[id]), old(logs[id]), x);
      }
      assert Woken(old(queues[id]), old(logs[id]), x, signalled, queues[id], logs[id], reply);
      if reply.Received? {
        ghost var n := WakeHands(old(queues[id]), old(logs[id]), x, signalled, queues[id], logs[id], reply);
      }
    }

    /** freeque. */
    method FreeQueue(id: nat)
      requires Valid() && id < |queues| && queues[id].alive
      modifies this
      ensures Valid() && Stepped(id, Purge)
    {
      hide Inv, Size, QueuesOk, Bytes, Headers;
      InvAt(queues, logs, id);
      var q := queues[id];
      InvLists(q, logs[id]);
      InvCounts(q, logs[id]);
      PurgeKeepsInv(q, logs[id]);
      var slept := ExpungeAll(q.listed, q.sleepers);
      var n := 0;
      var hdrs := msgHdrs;
      while n < |q.messages|
        invariant n <= |q.messages| && hdrs == msgHdrs - n
      {
        hdrs := hdrs - 1;
        n := n + 1;
      }
      ghost var log := PurgeLog(q, logs[id]);
      var p := q.(alive := false, messages := [], cbytes := 0, qnum := 0, listed := [], sleepers := slept);
      assert slept == Purged(q).sleepers;
      TotalsChange(queues, id, p);
      OneChanged(queues, logs, id, p, log);
      msgHdrs := hdrs;
      msgBytes := msgBytes - q.cbytes;
      queues, logs := queues[id := p], logs[id := log];
    }
  }

  /** Hands the message over, or queues it. */
  method Deliver(q: Queue, m: Message) returns (r: Queue, taken: bool)
    requires NoDuplicates(q.listed) && forall x :: x in q.listed ==> x in q.sleepers
    ensures r == Accept(q, m) && r.messages == if taken then q.messages else q.messages + [m]
  {
    var left, slept;
    left, slept, taken := PipelinedSend(q.listed, q.sleepers, m);
    r := q.(listed := left, sleepers := slept);
    if !taken {
      r := r.(messages := r.messages + [m], cbytes := r.cbytes + m.ts, qnum := r.qnum + 1);
    }
  }

  /** The search of one queue: which message it took, if any. */
  method SearchQueue(q: Queue, ghost log: Log, x: nat, r: Request, nowait: bool)
    returns (q': Queue, ghost log': Log, reply: Reply, took: Option<Message>)
    requires Inv(q, log) && q.alive && x !in q.sleepers
    ensures Searched(q, log, x, r, nowait, q', log', reply) && Inv(q', log') && reply != IdRemoved
    ensures took.None? ==> q'.messages == q.messages
    ensures took.Some? ==>
      took.value in q.messages && |q'.messages| == |q.messages| - 1 &&
        Size(q'.messages) == Size(q.messages) - took.value.ts
  {
    hide Inv, Size, Formed;
    InvTypes(q, log);
    q', log', took := q, log, None;
    var found := FindMessage(q.messages, r.mode, r.mtype);
    if found.Some? {
      var m := q.messages[found.value];
      if r.msgsz < m.ts && !r.noerror {
        reply := TooLong;
      } else {
        q' := q.(messages := q.messages[..found.value] + q.messages[found.value + 1..], qnum := q.qnum - 1,
          cbytes := q.cbytes - m.ts);
        SizeCut(q.messages, found.value);
        log', took := DeliverLog(log, m.id), Some(m);
        var text := CopyOut(m, r);
        reply := Received(m.mtype, text);
      }
    } else if nowait {
      reply := NoMessage;
    } else {
      q', reply := q.(listed := q.listed + [x], sleepers := q.sleepers[x := Sleeper(r, Waiting)]), Sleeps;
    }
    assert SearchedFor(q, log, x, r, nowait, found, q', log', reply);
    SearchKeepsInv(q, log, x, r, nowait, q', log', reply);
  }

  lemma {:induction false} QueueAdded(queues: seq<Queue>, logs: seq<Log>)
    requires QueuesOk(queues, logs)
    ensures QueuesOk(queues + [NEW_QUEUE], logs + [NEW_LOG])
    ensures Bytes(queues + [NEW_QUEUE]) == Bytes(queues) && Headers(queues + [NEW_QUEUE]) == Headers(queues)
  {
    hide Inv;
    NewInv();
    assert (queues + [NEW_QUEUE])[..|queues|] == queues;
  }

  lemma {:induction false} InvAt(queues: seq<Queue>, logs: seq<Log>, id: nat)
    requires QueuesOk(queues, logs) && id < |queues|
    ensures |logs| == |queues| && Inv(queues[id], logs[id])
  {
    hide Inv;
  }

  ghost predicate QueuesOk(queues: seq<Queue>, logs: seq<Log>) {
    |logs| == |queues| && forall i :: 0 <= i < |queues| ==> Inv(queues[i], logs[i])
  }

  lemma {:induction false} OneChanged(queues: seq<Queue>, logs: seq<Log>, id: nat, q: Queue, log: Log)
    requires QueuesOk(queues, logs) && id < |queues| && Inv(q, log)
    ensures QueuesOk(queues[id := q], logs[id := log]) && |logs| == |queues|
  {
    hide Inv;
  }

  lemma {:induction false} InvLists(q: Queue, log: Log)
    requires Inv(q, log)
    ensures NoDuplicates(q.listed) && forall x :: x in q.listed ==> x in q.sleepers
  {}

  lemma {:induction false} ListedWaits(q: Queue, log: Log, x: nat)
    requires Inv(q, log) && x in q.sleepers && q.sleepers[x].slot == Waiting
    ensures x in q.listed
  {}

  lemma {:induction false} InvCounts(q: Queue, log: Log)
    requires Inv(q, log)
    ensures q.qnum == |q.messages| && q.cbytes == Size(q.messages) && Size([]) == 0
  {}

  lemma {:induction false} InvTypes(q: Queue, log: Log)
    requires Inv(q, log)
    ensures forall m :: m in q.messages ==> TypeOk(m) && Formed(m)
  {
    hide Formed;
    forall m | m in q.messages ensures TypeOk(m) && Formed(m) { assert log.accepted[m.id] == m; }
  }

  lemma {:induction false} InvHeld(q: Queue, log: Log, x: nat)
    requires Inv(q, log) && x in q.sleepers && q.sleepers[x].slot.Got?
    ensures Formed(q.sleepers[x].slot.msg)
  {
    hide Formed;
    assert log.accepted[q.sleepers[x].slot.msg.id] == q.sleepers[x].slot.msg;
  }

  /** What the receiver is given of the text, out of its pieces. */
  method CopyOut(m: Message, r: Request) returns (text: seq<int>)
    requires Formed(m)
    ensures text == TextFor(m, r)
  {
    var len := if r.msgsz > m.ts then m.ts else r.msgsz;
    text := MsgBody.StoreMsg(m.head, m.segs, len);
    assert MsgBody.Text(m.head, m.segs)[..m.ts] == MsgBody.Text(m.head, m.segs);
  }

  lemma {:induction false} NewInv()
    ensures Inv(NEW_QUEUE, NEW_LOG)
  {}
}
