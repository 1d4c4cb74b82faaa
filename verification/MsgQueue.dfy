/** A System V message queue (ipc/msg.c): direct hand-off to sleeping receivers, and where every
    accepted message is over whole runs. */
module MsgQueue {
  import opened Lists
  import opened MsgSelect
  import MsgBody

  /** r_msg of a sleeping receiver: nothing yet, its message, or why there is none. */
  datatype Slot = Waiting | Got(msg: Message) | TooBig | Removed

  datatype Sleeper = Sleeper(req: Request, slot: Slot)

  /** `listed` is q_receivers; `sleepers` are all calls of msgrcv that have not run on yet. */
  datatype Queue = Queue(alive: bool, messages: seq<Message>, listed: seq<nat>, sleepers: map<nat, Sleeper>,
                         cbytes: int, qnum: int, qbytes: int)

  /** Where an accepted message is. */
  datatype Place = Queued | Held(holder: nat) | Delivered | Freed

  /** The history of a queue: what it accepted, where that went, and the deliveries in order. */
  datatype Log = Log(accepted: seq<Message>, place: map<nat, Place>, delivered: seq<nat>)

  function MaxSize(r: Request): int { if r.noerror then INT_MAX else r.msgsz }

  function Size(s: seq<Message>): nat { if s == [] then 0 else Size(s[..|s| - 1]) + s[|s| - 1].ts }

  predicate Room(q: Queue, m: Message) { m.ts + q.cbytes <= q.qbytes && 1 + q.qnum <= q.qbytes }

  // ---- hand-off ----

  predicate Asks(sleepers: map<nat, Sleeper>, x: nat, m: Message) { x in sleepers && Matches(m, sleepers[x].req) }

  predicate Fits(sleepers: map<nat, Sleeper>, x: nat, m: Message)
  {
    Asks(sleepers, x, m) && m.ts <= MaxSize(sleepers[x].req)
  }

  /** The first receiver that asks for the message and has room for it. */
  function FirstFit(listed: seq<nat>, sleepers: map<nat, Sleeper>, m: Message): (k: nat)
    ensures k <= |listed| && (k < |listed| ==> Fits(sleepers, listed[k], m))
    ensures forall j :: 0 <= j < k ==> !Fits(sleepers, listed[j], m)
  {
    if listed == [] || Fits(sleepers, listed[0], m) then 0 else 1 + FirstFit(listed[1..], sleepers, m)
  }

  /** The receivers of a list that do not ask for the message. */
  function Unasking(listed: seq<nat>, sleepers: map<nat, Sleeper>, m: Message): seq<nat> {
    if listed == [] then []
    else
      var n := |listed| - 1;
      var t := Unasking(listed[..n], sleepers, m);
      if Asks(sleepers, listed[n], m) then t else t + [listed[n]]
  }

  /** Before the first that fits, those that ask for the message learn it is too big for them. */
  function Answer(listed: seq<nat>, sleepers: map<nat, Sleeper>, m: Message, k: nat, x: nat): Slot
    requires x in sleepers && k <= |listed|
  {
    if x in listed[..k] && Asks(sleepers, x, m) then TooBig
    else if k < |listed| && x == listed[k] then Got(m)
    else sleepers[x].slot
  }

  function Answered(listed: seq<nat>, sleepers: map<nat, Sleeper>, m: Message, k: nat): (r: map<nat, Sleeper>)
    requires k <= |listed|
    ensures r.Keys == sleepers.Keys
    ensures forall x :: x in sleepers ==> r[x] == sleepers[x].(slot := Answer(listed, sleepers, m, k, x))
  {
    map x | x in sleepers :: sleepers[x].(slot := Answer(listed, sleepers, m, k, x))
  }

  function Remaining(listed: seq<nat>, sleepers: map<nat, Sleeper>, m: Message, k: nat): seq<nat>
    requires k <= |listed|
  {
    Unasking(listed[..k], sleepers, m) + if k < |listed| then listed[k + 1..] else []
  }

  /** The queue once it has accepted a message. */
  function Accept(q: Queue, m: Message): Queue {
    var k := FirstFit(q.listed, q.sleepers, m);
    var r := q.(listed := Remaining(q.listed, q.sleepers, m, k), sleepers := Answered(q.listed, q.sleepers, m, k));
    if k < |q.listed| then r
    else r.(messages := q.messages + [m], cbytes := q.cbytes + m.ts, qnum := q.qnum + 1)
  }

  function AcceptLog(q: Queue, log: Log, m: Message): Log {
    var k := FirstFit(q.listed, q.sleepers, m);
    Logged(log, m, if k < |q.listed| then Held(q.listed[k]) else Queued)
  }

  // ---- the other steps ----

  datatype Reply = Received(mtype: int, text: seq<int>) | TooLong | NoMessage | Sleeps | IdRemoved | Interrupted

  /** The text is in full pieces and as long as the message says. */
  ghost predicate Formed(m: Message) { MsgBody.Packed(m.head, m.segs) && |MsgBody.Text(m.head, m.segs)| == m.ts }

  /** The part of the text that a receiver is given. */
  function TextFor(m: Message, r: Request): seq<int> {
    var text := MsgBody.Text(m.head, m.segs);
    if r.msgsz < |text| then text[..r.msgsz] else text
  }

  function Taken(q: Queue, i: nat): Queue
    requires i < |q.messages|
  {
    q.(messages := q.messages[..i] + q.messages[i + 1..], qnum := q.qnum - 1, cbytes := q.cbytes - q.messages[i].ts)
  }

  /** Call `x` of msgrcv goes to sleep at the end of the list. */
  function Asleep(q: Queue, x: nat, r: Request): Queue {
    q.(listed := q.listed + [x], sleepers := q.sleepers[x := Sleeper(r, Waiting)])
  }

  function DeliverLog(log: Log, id: nat): Log {
    log.(place := log.place[id := Delivered], delivered := log.delivered + [id])
  }

  /** A search of the queue, by a new call or one that was woken for nothing. */
  ghost predicate Searched(q: Queue, log: Log, x: nat, r: Request, nowait: bool, q': Queue, log': Log, reply: Reply) {
    exists found :: Selected(q.messages, r.mode, r.mtype, found) &&
      SearchedFor(q, log, x, r, nowait, found, q', log', reply)
  }

  ghost predicate SearchedFor(q: Queue, log: Log, x: nat, r: Request, nowait: bool, found: Option<nat>, q': Queue,
          log': Log, reply: Reply)
  {
    match found
    case Some(i) =>
      && i < |q.messages|
      && if r.msgsz < q.messages[i].ts && !r.noerror then
           q' == q && log' == log && reply == TooLong
         else
           && q' == Taken(q, i) && log' == DeliverLog(log, q.messages[i].id)
           && reply == Received(q.messages[i].mtype, TextFor(q.messages[i], r))
    case None =>
      && log' == log
      && (if nowait then q' == q && reply == NoMessage
          else q' == Asleep(q, x, r) && reply == Sleeps)
  }

  /** freeque: the receivers learn that the queue is gone; its messages are freed. */
  function Purged(q: Queue): Queue {
    q.(alive := false, messages := [], cbytes := 0, qnum := 0, listed := [],
       sleepers := map x | x in q.sleepers :: if x in q.listed then q.sleepers[x].(slot := Removed) else q.sleepers[x])
  }

  function PurgeLog(q: Queue, log: Log): Log {
    log.(place := map i | i in log.place :: if log.place[i] == Queued then Freed else log.place[i])
  }

  datatype Event =
    | Send(m: Message)
    | Receive(x: nat, r: Request, nowait: bool)
    | Wake(x: nat, signalled: bool)
    | SetQbytes(n: nat)
    | Purge

  function Unlisted(s: seq<nat>, x: nat): seq<nat> { if x in s then Without(s, x) else s }

  function Gone(q: Queue, x: nat): Queue { q.(sleepers := q.sleepers - {x}) }

  function OffList(q: Queue, x: nat): Queue { q.(sleepers := q.sleepers - {x}, listed := Unlisted(q.listed, x)) }

  ghost predicate Woken(q: Queue, log: Log, x: nat, signalled: bool, q': Queue, log': Log, reply: Reply)
    requires x in q.sleepers
  {
    var s := q.sleepers[x];
    match s.slot
    case Got(m) => q' == Gone(q, x) && log' == DeliverLog(log, m.id) && reply == Received(m.mtype, TextFor(m, s.req))
    case TooBig => q' == Gone(q, x) && log' == log && reply == TooLong
    case Removed => q' == Gone(q, x) && log' == log && reply == IdRemoved
    case Waiting =>
      var u := OffList(q, x);
      if signalled then q' == u && log' == log && reply == Interrupted
      else Searched(u, log, x, s.req, false, q', log', reply)
  }

  ghost predicate Step(q: Queue, log: Log, e: Event, q': Queue, log': Log) {
    match e
    case Send(m) =>
      && q.alive && Room(q, m) && TypeOk(m) && Formed(m) && m.ts <= INT_MAX && m.id == |log.accepted|
      && q' == Accept(q, m) && log' == AcceptLog(q, log, m)
    case Receive(x, r, nowait) =>
      q.alive && x !in q.sleepers && exists reply :: Searched(q, log, x, r, nowait, q', log', reply)
    case Wake(x, signalled) => x in q.sleepers && exists reply :: Woken(q, log, x, signalled, q', log', reply)
    case SetQbytes(n) => q.alive && q' == q.(qbytes := n) && log' == log
    case Purge => q.alive && q' == Purged(q) && log' == PurgeLog(q, log)
  }

  // ---- the invariant ----

  /** The receivers on the list are those still waiting; on a queue that is gone there are none. */
  ghost predicate ListOk(q: Queue) {
    && NoDuplicates(q.listed)
    && (forall x :: x in q.listed <==> x in q.sleepers && q.sleepers[x].slot == Waiting)
    && (!q.alive ==> q.listed == [])
  }

  /** No queued message is one that a listed receiver asks for. */
  ghost predicate NoneMissed(q: Queue) {
    forall m, x :: m in q.messages && x in q.listed ==> !Asks(q.sleepers, x, m)
  }

  /** What a receiver was handed is what it asked for, and not too big. */
  ghost predicate HandedOk(q: Queue) {
    forall x :: x in q.sleepers && q.sleepers[x].slot.Got? ==> Fits(q.sleepers, x, q.sleepers[x].slot.msg)
  }

  ghost predicate CountersOk(q: Queue) {
    q.cbytes == Size(q.messages) && q.qnum == |q.messages| && (!q.alive ==> q.messages == [])
  }

  /** Messages are queued in the order they were accepted. */
  ghost predicate InOrder(s: seq<Message>) { forall i, j :: 0 <= i < j < |s| ==> s[i].id < s[j].id }

  ghost predicate MessagesOk(q: Queue, log: Log) {
    && InOrder(q.messages)
    && (forall m :: m in q.messages ==> TypeOk(m) && m.id < |log.accepted|)
  }

  /** Every accepted message has one place, and the delivered ones are those delivered, once each. */
  ghost predicate LogOk(log: Log) {
    && (forall i :: i in log.place <==> 0 <= i < |log.accepted|)
    && (forall i :: 0 <= i < |log.accepted| ==> log.accepted[i].id == i && Formed(log.accepted[i]))
    && NoDuplicates(log.delivered)
    && (forall i :: i in log.delivered <==> i in log.place && log.place[i] == Delivered)
  }

  /** The messages said to be queued are the ones on the queue ... */
  ghost predicate QueuedOk(messages: seq<Message>, log: Log)
    requires LogOk(log)
  {
    && (forall m :: m in messages ==> m.id in log.place && log.place[m.id] == Queued && log.accepted[m.id] == m)
    && (forall i :: i in log.place && log.place[i] == Queued ==> log.accepted[i] in messages)
  }

  /** ... and those said to be held are the ones in the receivers' slots. */
  ghost predicate HeldOk(sleepers: map<nat, Sleeper>, log: Log)
    requires LogOk(log)
  {
    && (forall x :: x in sleepers && sleepers[x].slot.Got? ==>
      var m := sleepers[x].slot.msg; m.id in log.place && log.place[m.id] == Held(x) && log.accepted[m.id] == m)
    && (forall i :: i in log.place && log.place[i].Held? ==>
      var x := log.place[i].holder; x in sleepers && sleepers[x].slot == Got(log.accepted[i]))
  }

  ghost predicate PlacesOk(q: Queue, log: Log) {
    && LogOk(log) && QueuedOk(q.messages, log) && HeldOk(q.sleepers, log)
    && (q.alive ==> NoneFreed(log))
  }

  ghost predicate NoneFreed(log: Log) { forall i :: i in log.place ==> log.place[i] != Freed }

  ghost predicate Inv(q: Queue, log: Log) {
    ListOk(q) && NoneMissed(q) && HandedOk(q) && CountersOk(q) && MessagesOk(q, log) && PlacesOk(q, log)
  }

  // ---- sending keeps it ----

  lemma {:induction false} UnaskingFacts(l: seq<nat>, sleepers: map<nat, Sleeper>, m: Message)
    requires NoDuplicates(l)
    ensures NoDuplicates(Unasking(l, sleepers, m))
    ensures forall x :: x in Unasking(l, sleepers, m) <==> x in l && !Asks(sleepers, x, m)
  {
    if l != [] {
      var n := |l| - 1;
      UnaskingFacts(l[..n], sleepers, m);
      assert l == l[..n] + [l[n]];
      assert l[n] !in l[..n];
    }
  }

  /** Those that stay on the list are those that the message does not take off it. */
  lemma {:induction false} RemainingFacts(l: seq<nat>, sleepers: map<nat, Sleeper>, m: Message, k: nat)
    requires NoDuplicates(l) && k <= |l|
    ensures NoDuplicates(Remaining(l, sleepers, m, k))
    ensures forall x :: x in Remaining(l, sleepers, m, k) <==> x in l && x !in StruckOff(l, sleepers, m, k)
  {
    hide Unasking, NoDuplicates;
    if k < |l| {
      CutAt(l, k);
      UnaskingFacts(l[..k], sleepers, m);
      ConcatOnce(Unasking(l[..k], sleepers, m), l[k + 1..]);
    } else {
      assert l[..k] == l;
      UnaskingFacts(l, sleepers, m);
      assert Unasking(l, sleepers, m) + [] == Unasking(l, sleepers, m);
    }
  }

  /** The receivers that a message takes off the list. */
  ghost function StruckOff(listed: seq<nat>, sleepers: map<nat, Sleeper>, m: Message, k: nat): set<nat>
    requires k <= |listed|
  {
    (set x | x in listed[..k] && Asks(sleepers, x, m)) + if k < |listed| then {listed[k]} else {}
  }

  ghost predicate SendOk(q: Queue, log: Log, m: Message) {
    q.alive && TypeOk(m) && Formed(m) && m.ts <= INT_MAX && m.id == |log.accepted|
  }

  lemma {:induction false} AcceptListOk(q: Queue, m: Message)
    requires ListOk(q) && q.alive
    ensures ListOk(Accept(q, m))
  {
    hide FirstFit, Remaining, NoDuplicates;
    var k := FirstFit(q.listed, q.sleepers, m);
    RemainingFacts(q.listed, q.sleepers, m, k);
    assert k < |q.listed| ==> q.listed[k] in q.listed;
    assert forall x :: x in q.listed[..k] ==> x in q.listed;
  }

  lemma {:induction false} AcceptNoneMissed(q: Queue, m: Message)
    requires ListOk(q) && NoneMissed(q)
    ensures NoneMissed(Accept(q, m))
  {
    hide FirstFit, Remaining, NoDuplicates;
    var k := FirstFit(q.listed, q.sleepers, m);
    var q' := Accept(q, m);
    RemainingFacts(q.listed, q.sleepers, m, k);
    assert k == |q.listed| ==> q.listed[..k] == q.listed;
    forall n, x | n in q'.messages && x in q'.listed ensures !Asks(q'.sleepers, x, n) {
      assert Asks(q'.sleepers, x, n) == Asks(q.sleepers, x, n);
    }
  }

  lemma {:induction false} AcceptHandedOk(q: Queue, m: Message)
    requires HandedOk(q)
    ensures HandedOk(Accept(q, m))
  {
    hide FirstFit, Remaining, NoDuplicates;
    var q' := Accept(q, m);
    forall x | x in q'.sleepers && q'.sleepers[x].slot.Got? ensures Fits(q'.sleepers, x, q'.sleepers[x].slot.msg) {
      var n := q'.sleepers[x].slot.msg;
      assert Fits(q'.sleepers, x, n) == Fits(q.sleepers, x, n);
    }
  }

  lemma {:induction false} SizeNext(s: seq<Message>, m: Message)
    ensures Size(s + [m]) == Size(s) + m.ts
  {
    assert (s + [m])[..|s|] == s;
  }

  lemma {:induction false} AcceptMessagesOk(q: Queue, log: Log, m: Message)
    requires SendOk(q, log, m) && MessagesOk(q, log) && CountersOk(q)
    ensures MessagesOk(Accept(q, m), AcceptLog(q, log, m)) && CountersOk(Accept(q, m))
  {
    hide FirstFit, Remaining, Answered, InOrder, Size;
    SizeNext(q.messages, m);
    OrderNext(q.messages, m);
  }

  lemma {:induction false} OrderNext(s: seq<Message>, m: Message)
    requires InOrder(s) && forall x :: x in s ==> x.id < m.id
    ensures InOrder(s + [m])
  {}

  /** The log with one more message. */
  function Logged(log: Log, m: Message, p: Place): Log {
    log.(accepted := log.accepted + [m], place := log.place[m.id := p])
  }

  lemma {:induction false} LoggedOk(log: Log, m: Message, p: Place)
    requires LogOk(log) && m.id == |log.accepted| && Formed(m) && p != Delivered
    ensures LogOk(Logged(log, m, p))
    ensures forall i :: i in log.place ==>
      Logged(log, m, p).place[i] == log.place[i] && Logged(log, m, p).accepted[i] == log.accepted[i]
    ensures Logged(log, m, p).place[m.id] == p && Logged(log, m, p).accepted[m.id] == m
  {
    hide NoDuplicates, Formed;
  }

  lemma {:induction false} AcceptQueuedOk(q: Queue, log: Log, m: Message)
    requires SendOk(q, log, m) && LogOk(log) && QueuedOk(q.messages, log)
    ensures LogOk(AcceptLog(q, log, m)) && QueuedOk(Accept(q, m).messages, AcceptLog(q, log, m))
    ensures Accept(q, m).alive == q.alive && (NoneFreed(log) ==> NoneFreed(AcceptLog(q, log, m)))
  {
    hide FirstFit, Remaining, LogOk, Answered, Formed;
    var k := FirstFit(q.listed, q.sleepers, m);
    LoggedOk(log, m, if k < |q.listed| then Held(q.listed[k]) else Queued);
    PlaceKeys(log);
    PlaceKeys(AcceptLog(q, log, m));
  }

  lemma {:induction false} PlaceKeys(log: Log)
    requires LogOk(log)
    ensures forall i :: i in log.place <==> 0 <= i < |log.accepted|
  {}

  lemma {:induction false} AcceptHeldOk(q: Queue, log: Log, m: Message)
    requires SendOk(q, log, m) && ListOk(q) && LogOk(log) && HeldOk(q.sleepers, log)
    ensures LogOk(AcceptLog(q, log, m)) && HeldOk(Accept(q, m).sleepers, AcceptLog(q, log, m))
  {
    hide FirstFit, Remaining, LogOk, NoDuplicates, Formed;
    var k := FirstFit(q.listed, q.sleepers, m);
    LoggedOk(log, m, if k < |q.listed| then Held(q.listed[k]) else Queued);
    PlaceKeys(log);
    PlaceKeys(AcceptLog(q, log, m));
    AnswerFacts(q, m);
  }

  /** Only receivers that were waiting get an answer; the first that fits gets the message. */
  lemma {:induction false} AnswerFacts(q: Queue, m: Message)
    requires ListOk(q)
    ensures var k, s := FirstFit(q.listed, q.sleepers, m), Accept(q, m).sleepers;
      && s.Keys == q.sleepers.Keys
      && (forall x :: x in s && q.sleepers[x].slot != Waiting ==> s[x] == q.sleepers[x])
      && (forall x :: x in s && q.sleepers[x].slot == Waiting && s[x].slot.Got? ==>
          k < |q.listed| && x == q.listed[k] && s[x].slot == Got(m))
      && (k < |q.listed| ==>
          q.listed[k] in s && q.sleepers[q.listed[k]].slot == Waiting && s[q.listed[k]].slot == Got(m))
  {
    hide FirstFit, Remaining;
    var k := FirstFit(q.listed, q.sleepers, m);
    assert forall x :: x in q.listed[..k] ==> x in q.listed;
    if k < |q.listed| {
      assert q.listed[k] in q.listed;
      CutAt(q.listed, k);
    }
  }

  lemma {:induction false} SendKeepsInv(q: Queue, log: Log, m: Message)
    requires Inv(q, log) && SendOk(q, log, m)
    ensures Inv(Accept(q, m), AcceptLog(q, log, m))
  {
    hide Accept, AcceptLog, ListOk, NoneMissed, HandedOk, CountersOk, MessagesOk, LogOk, QueuedOk, HeldOk;
    AcceptListOk(q, m);
    AcceptNoneMissed(q, m);
    AcceptHandedOk(q, m);
    AcceptMessagesOk(q, log, m);
    AcceptQueuedOk(q, log, m);
    AcceptHeldOk(q, log, m);
  }

  // ---- receiving keeps it ----

  lemma {:induction false} SizeConcat(a: seq<Message>, b: seq<Message>)
    ensures Size(a + b) == Size(a) + Size(b)
  {
    if b == [] {
      assert a + b == a;
    } else {
      var n := |b| - 1;
      SizeConcat(a, b[..n]);
      SizeNext(a + b[..n], b[n]);
      assert (a + b[..n]) + [b[n]] == a + b;
    }
  }

  lemma {:induction false} SizeCut(s: seq<Message>, i: nat)
    requires i < |s|
    ensures Size(s[..i] + s[i + 1..]) == Size(s) - s[i].ts
  {
    hide Size;
    SizeConcat(s[..i], s[i + 1..]);
    SizeNext(s[..i], s[i]);
    SizeConcat(s[..i] + [s[i]], s[i + 1..]);
    assert (s[..i] + [s[i]]) + s[i + 1..] == s;
  }

  lemma {:induction false} OrderCut(s: seq<Message>, i: nat)
    requires InOrder(s) && i < |s|
    ensures InOrder(s[..i] + s[i + 1..])
    ensures forall m :: m in s[..i] + s[i + 1..] <==> m in s && m != s[i]
  {
    var t := s[..i] + s[i + 1..];
    assert forall j :: 0 <= j < |t| ==> t[j] == s[if j < i then j else j + 1];
    forall m | m in s && m != s[i] ensures m in t {
      var j :| 0 <= j < |s| && s[j] == m;
      assert t[if j < i then j else j - 1] == m;
    }
  }

  lemma {:induction false} DeliverOk(log: Log, i: nat)
    requires LogOk(log) && i in log.place && log.place[i] != Delivered
    ensures LogOk(DeliverLog(log, i))
  {
    hide NoDuplicates, Formed;
    ConcatOnce(log.delivered, [i]) by { assert NoDuplicates([i]) by { Single(i); } }
  }

  lemma {:induction false} Single(i: nat)
    ensures NoDuplicates([i])
  {}

  lemma {:induction false} TakeKeepsInv(q: Queue, log: Log, i: nat)
    requires Inv(q, log) && i < |q.messages|
    ensures Inv(Taken(q, i), DeliverLog(log, q.messages[i].id))
  {
    hide Size, InOrder, NoDuplicates, TypeOk, Asks, Fits, Formed;
    var m := q.messages[i];
    assert m in q.messages;
    SizeCut(q.messages, i);
    OrderCut(q.messages, i);
    DeliverOk(log, m.id);
    TakePlaces(q, log, i);
    TakeRest(q, log, i);
  }

  lemma {:induction false} TakePlaces(q: Queue, log: Log, i: nat)
    requires i < |q.messages| && InOrder(q.messages) && PlacesOk(q, log)
    ensures PlacesOk(Taken(q, i), DeliverLog(log, q.messages[i].id))
  {
    hide InOrder, NoDuplicates, Formed;
    assert q.messages[i] in q.messages;
    OrderCut(q.messages, i);
    DeliverOk(log, q.messages[i].id);
  }

  lemma {:induction false} TakeRest(q: Queue, log: Log, i: nat)
    requires i < |q.messages| && InOrder(q.messages) && ListOk(q) && NoneMissed(q) && HandedOk(q)
    ensures ListOk(Taken(q, i)) && NoneMissed(Taken(q, i)) && HandedOk(Taken(q, i))
  {
    hide InOrder, NoDuplicates, Asks, Fits;
    OrderCut(q.messages, i);
  }

  /** A receiver goes to sleep only when nothing queued is for it. */
  lemma {:induction false} SleepKeepsInv(q: Queue, log: Log, x: nat, r: Request)
    requires Inv(q, log) && q.alive && x !in q.sleepers && forall m :: m in q.messages ==> !Matches(m, r)
    ensures Inv(Asleep(q, x, r), log)
  {
    hide Size, InOrder, NoDuplicates, TypeOk, LogOk;
    var q' := Asleep(q, x, r);
    Single(x);
    ConcatOnce(q.listed, [x]);
    PlaceKeys(log);
  }

  lemma {:induction false} SearchKeepsInv(q: Queue, log: Log, x: nat, r: Request, nowait: bool, q': Queue, log': Log,
          reply: Reply)
    requires Inv(q, log) && q.alive && x !in q.sleepers && Searched(q, log, x, r, nowait, q', log', reply)
    ensures Inv(q', log')
  {
    hide Inv;
    var found :| Selected(q.messages, r.mode, r.mtype, found) &&
      SearchedFor(q, log, x, r, nowait, found, q', log', reply);
    if found.Some? {
      TakeKeepsInv(q, log, found.value);
    } else {
      SleepKeepsInv(q, log, x, r);
    }
  }

  // ---- waking keeps it ----

  lemma {:induction false} GoneList(q: Queue, x: nat)
    requires ListOk(q) && NoneMissed(q) && HandedOk(q) && x in q.sleepers
    ensures var u := OffList(q, x); ListOk(u) && NoneMissed(u) && HandedOk(u)
  {
    hide NoDuplicates, Without;
    if x in q.listed { WithoutFacts(q.listed, x); }
  }

  /** A receiver that is done leaves, with its message delivered if it was handed one. */
  lemma {:induction false} GonePlaces(q: Queue, log: Log, x: nat)
    requires PlacesOk(q, log) && x in q.sleepers
    ensures if q.sleepers[x].slot.Got? then PlacesOk(Gone(q, x), DeliverLog(log, q.sleepers[x].slot.msg.id))
      else PlacesOk(Gone(q, x), log)
  {
    hide NoDuplicates, LogOk, Formed;
    PlaceKeys(log);
    if q.sleepers[x].slot.Got? {
      DeliverOk(log, q.sleepers[x].slot.msg.id);
      PlaceKeys(DeliverLog(log, q.sleepers[x].slot.msg.id));
    }
    AcceptedIds(log);
  }

  lemma {:induction false} AcceptedIds(log: Log)
    requires LogOk(log)
    ensures forall i :: 0 <= i < |log.accepted| ==> log.accepted[i].id == i && Formed(log.accepted[i])
  {}

  lemma {:induction false} GoneKeepsInv(q: Queue, log: Log, x: nat)
    requires Inv(q, log) && x in q.sleepers
    ensures var u := OffList(q, x);
      if q.sleepers[x].slot.Got? then Inv(u, DeliverLog(log, q.sleepers[x].slot.msg.id)) else Inv(u, log)
  {
    hide ListOk, NoneMissed, HandedOk, LogOk, QueuedOk, HeldOk, Unlisted, DeliverLog, InOrder;
    GoneList(q, x);
    GonePlaces(q, log, x);
    DeliverSame(log);
  }

  lemma {:induction false} DeliverSame(log: Log)
    ensures forall i {:trigger DeliverLog(log, i)} :: DeliverLog(log, i).accepted == log.accepted
  {}

  /** A receiver woken with nothing sleeps on a queue that is still there. */
  lemma {:induction false} WaitingIsAlive(q: Queue, log: Log, x: nat)
    requires Inv(q, log) && x in q.sleepers && q.sleepers[x].slot == Waiting
    ensures q.alive && x in q.listed
  {}

  lemma {:induction false} WakeKeepsInv(q: Queue, log: Log, x: nat, signalled: bool, q': Queue, log': Log, reply: Reply)
    requires Inv(q, log) && x in q.sleepers && Woken(q, log, x, signalled, q', log', reply)
    ensures Inv(q', log')
  {
    hide Inv, Unlisted;
    GoneKeepsInv(q, log, x);
    if q.sleepers[x].slot == Waiting {
      WaitingIsAlive(q, log, x);
      if !signalled {
        SearchKeepsInv(OffList(q, x), log, x, q.sleepers[x].req, false, q', log', reply);
      }
    } else {
      NotListed(q, log, x);
    }
  }

  lemma {:induction false} NotListed(q: Queue, log: Log, x: nat)
    requires Inv(q, log) && x in q.sleepers && q.sleepers[x].slot != Waiting
    ensures Unlisted(q.listed, x) == q.listed
  {}

  // ---- removing the queue keeps it ----

  lemma {:induction false} PurgeKeepsInv(q: Queue, log: Log)
    requires Inv(q, log)
    ensures Inv(Purged(q), PurgeLog(q, log))
  {
    PurgePlaces(q, log);
  }

  lemma {:induction false} PurgePlaces(q: Queue, log: Log)
    requires ListOk(q) && PlacesOk(q, log)
    ensures PlacesOk(Purged(q), PurgeLog(q, log))
  {
    hide NoDuplicates, Formed;
  }

  // ---- runs ----

  lemma {:induction false} StepKeepsInv(q: Queue, log: Log, e: Event, q': Queue, log': Log)
    requires Inv(q, log) && Step(q, log, e, q', log')
    ensures Inv(q', log')
  {
    hide Inv;
    match e
    case Send(m) => SendKeepsInv(q, log, m);
    case Receive(x, r, nowait) =>
      var reply :| Searched(q, log, x, r, nowait, q', log', reply);
      SearchKeepsInv(q, log, x, r, nowait, q', log', reply);
    case Wake(x, signalled) =>
      var reply :| Woken(q, log, x, signalled, q', log', reply);
      WakeKeepsInv(q, log, x, signalled, q', log', reply);
    case SetQbytes(n) => QbytesKeepsInv(q, log, n);
    case Purge => PurgeKeepsInv(q, log);
  }

  lemma {:induction false} QbytesKeepsInv(q: Queue, log: Log, n: nat)
    requires Inv(q, log)
    ensures Inv(q.(qbytes := n), log)
  {}

  const MSGMNB := 16384
  /** newque. */
  const NEW_QUEUE := Queue(true, [], [], map[], 0, 0, MSGMNB)
  const NEW_LOG := Log([], map[], [])

  ghost predicate IsRun(run: seq<(Queue, Log)>, events: seq<Event>) {
    && |run| == |events| + 1 && run[0] == (NEW_QUEUE, NEW_LOG)
    && forall i :: 0 <= i < |events| ==> Step(run[i].0, run[i].1, events[i], run[i + 1].0, run[i + 1].1)
  }

  lemma {:induction false} RunKeepsInv(run: seq<(Queue, Log)>, events: seq<Event>, k: nat)
    requires IsRun(run, events) && k < |run|
    ensures Inv(run[k].0, run[k].1)
  {
    if k > 0 {
      RunKeepsInv(run, events, k - 1);
      StepKeepsInv(run[k - 1].0, run[k - 1].1, events[k - 1], run[k].0, run[k].1);
    }
  }

  // ---- what callers see ----

  /** Where a message goes that is sent: receivers take it that ask for its type and have room for it
      or take the beginning of it. The first of them gets it and nothing is queued; with none it is
      queued at the end. Before that one, those that ask learn it is too big, and leave the list. */
  lemma {:induction false} SendGoesTo(q: Queue, m: Message, k: nat)
    requires m.ts <= INT_MAX && k <= |q.listed| && NoDuplicates(q.listed)
    requires forall j :: 0 <= j < |q.listed| ==> q.listed[j] in q.sleepers
    requires forall j :: 0 <= j < k ==>
      var r := q.sleepers[q.listed[j]].req; !(TestMsg(m, r.mtype, r.mode) && (r.noerror || m.ts <= r.msgsz))
    requires k < |q.listed| ==>
      var r := q.sleepers[q.listed[k]].req; TestMsg(m, r.mtype, r.mode) && (r.noerror || m.ts <= r.msgsz)
    ensures var q' := Accept(q, m);
      && q'.sleepers.Keys == q.sleepers.Keys
      && (k < |q.listed| ==>
            && q'.sleepers[q.listed[k]] == q.sleepers[q.listed[k]].(slot := Got(m)) && q.listed[k] !in q'.listed
            && q'.messages == q.messages && q'.cbytes == q.cbytes && q'.qnum == q.qnum)
      && (k == |q.listed| ==>
            q'.messages == q.messages + [m] && q'.cbytes == q.cbytes + m.ts && q'.qnum == q.qnum + 1)
      && forall x :: x in q.sleepers && (k < |q.listed| ==> x != q.listed[k]) ==>
           var r := q.sleepers[x].req;
           if x in q.listed[..k] && TestMsg(m, r.mtype, r.mode) then
             q'.sleepers[x] == q.sleepers[x].(slot := TooBig) && x !in q'.listed
           else q'.sleepers[x] == q.sleepers[x] && (x in q'.listed <==> x in q.listed)
  {
    hide Accept, Unasking;
    var f := FirstFit(q.listed, q.sleepers, m);
    assert forall j :: 0 <= j < |q.listed| ==> (Fits(q.sleepers, q.listed[j], m) <==>
      var r := q.sleepers[q.listed[j]].req; TestMsg(m, r.mtype, r.mode) && (r.noerror || m.ts <= r.msgsz));
    assert f == k;
    AcceptIs(q, m);
    StillListed(q, m, k);
  }

  lemma {:induction false} AcceptIs(q: Queue, m: Message)
    ensures var (k, r) := (FirstFit(q.listed, q.sleepers, m), Accept(q, m));
      && r.listed == Remaining(q.listed, q.sleepers, m, k) && r.sleepers == Answered(q.listed, q.sleepers, m, k)
      && (if k < |q.listed| then r.messages == q.messages && r.cbytes == q.cbytes && r.qnum == q.qnum
          else r.messages == q.messages + [m] && r.cbytes == q.cbytes + m.ts && r.qnum == q.qnum + 1)
  {
    hide FirstFit, Remaining, Answered;
  }

  lemma {:induction false} StillListed(q: Queue, m: Message, k: nat)
    requires k <= |q.listed| && NoDuplicates(q.listed)
    ensures k < |q.listed| ==> q.listed[k] !in Remaining(q.listed, q.sleepers, m, k)
    ensures forall x :: (k < |q.listed| ==> x != q.listed[k]) ==>
      (x in Remaining(q.listed, q.sleepers, m, k) <==> x in q.listed && !(x in q.listed[..k] && Asks(q.sleepers, x, m)))
  {
    hide Unasking, Asks;
    UnaskingFacts(q.listed[..k], q.sleepers, m);
    assert q.listed == q.listed[..k] + q.listed[k..];
  }

  /** Message `n` was accepted and is now delivered, last of all. The receiver is given its type and
      the first `msgsz` bytes of its text, or all of it; less than all only with MSG_NOERROR. */
  ghost predicate Handed(log: Log, log': Log, n: nat, r: Request, reply: Reply) {
    && n < |log.accepted| && n !in log.delivered && log'.delivered == log.delivered + [n]
    && log'.accepted == log.accepted
    && reply.Received? && reply.mtype == log.accepted[n].mtype
    && var text := MsgBody.Text(log.accepted[n].head, log.accepted[n].segs);
       && |text| == log.accepted[n].ts
       && reply.text == text[..Least(r.msgsz, |text|)]
       && (r.noerror || |text| <= r.msgsz)
  }

  lemma {:induction false} SearchHands(q: Queue, log: Log, x: nat, r: Request, nowait: bool, q': Queue, log': Log,
          reply: Reply)
    returns (n: nat)
    requires Inv(q, log) && Searched(q, log, x, r, nowait, q', log', reply) && reply.Received?
    ensures Handed(log, log', n, r, reply) && log.accepted[n] in q.messages
    ensures TestMsg(log.accepted[n], r.mtype, r.mode)
    ensures forall m :: m in q.messages && TestMsg(m, r.mtype, r.mode) ==>
      || (r.mode == SearchLessEqual && reply.mtype < m.mtype)
      || ((r.mode == SearchLessEqual ==> reply.mtype == m.mtype) && n <= m.id)
  {
    hide Inv;
    var found :| Selected(q.messages, r.mode, r.mtype, found) &&
      SearchedFor(q, log, x, r, nowait, found, q', log', reply);
    var m := q.messages[found.value];
    n := m.id;
    QueuedFacts(q, log, found.value);
    var text := MsgBody.Text(m.head, m.segs);
    assert text[..|text|] == text;
    forall o | o in q.messages && TestMsg(o, r.mtype, r.mode)
      ensures (r.mode == SearchLessEqual && m.mtype < o.mtype)
        || ((r.mode == SearchLessEqual ==> m.mtype == o.mtype) && n <= o.id)
    {
      var j :| 0 <= j < |q.messages| && q.messages[j] == o;
      assert Better(q.messages, r.mode, found.value, j);
    }
  }

  lemma {:induction false} QueuedFacts(q: Queue, log: Log, i: nat)
    requires Inv(q, log) && i < |q.messages|
    ensures var m := q.messages[i];
      && 0 <= m.id < |log.accepted| && log.accepted[m.id] == m && m.id !in log.delivered
      && |MsgBody.Text(m.head, m.segs)| == m.ts && forall j :: i <= j < |q.messages| ==> m.id <= q.messages[j].id
  {
    var m := q.messages[i];
    assert m in q.messages;
    assert log.accepted[m.id] == m && log.place[m.id] == Queued && Formed(m);
  }

  lemma {:induction false} WakeHands(q: Queue, log: Log, x: nat, signalled: bool, q': Queue, log': Log, reply: Reply)
    returns (n: nat)
    requires Inv(q, log) && x in q.sleepers && Woken(q, log, x, signalled, q', log', reply) && reply.Received?
    ensures Handed(log, log', n, q.sleepers[x].req, reply)
    ensures q.sleepers[x].slot == Got(log.accepted[n]) ||
      (q.sleepers[x].slot == Waiting && log.accepted[n] in q.messages)
  {
    hide Searched, Selected;
    var s := q.sleepers[x];
    if s.slot.Got? {
      var m := s.slot.msg;
      n := m.id;
      assert log.accepted[n] == m && log.place[n] == Held(x) && Formed(m) && Fits(q.sleepers, x, m);
      var text := MsgBody.Text(m.head, m.segs);
      assert text[..|text|] == text;
    } else {
      GoneKeepsInv(q, log, x);
      n := SearchHands(OffList(q, x), log, x, s.req, false, q', log', reply);
    }
  }

  /** Without a message: a search tells that the one it found is too long, that there is none, or goes
      to sleep at the end of the list; there is none exactly if no queued message is of a type that was
      asked for. */
  lemma {:induction false} SearchMisses(q: Queue, log: Log, x: nat, r: Request, nowait: bool, q': Queue, log': Log,
          reply: Reply)
    requires Searched(q, log, x, r, nowait, q', log', reply)
    ensures reply.Received? || reply == TooLong || reply == NoMessage || reply == Sleeps
    ensures reply == NoMessage || reply == Sleeps <==> forall m :: m in q.messages ==> !TestMsg(m, r.mtype, r.mode)
    ensures reply == NoMessage ==> nowait && q' == q && log' == log
    ensures reply == TooLong ==> q' == q && log' == log && !r.noerror
    ensures reply == Sleeps ==>
      && !nowait && log' == log && q'.messages == q.messages && q'.listed == q.listed + [x]
      && q'.sleepers == q.sleepers[x := Sleeper(r, Waiting)]
  {
    var found :| Selected(q.messages, r.mode, r.mtype, found) &&
      SearchedFor(q, log, x, r, nowait, found, q', log', reply);
    if found.Some? { assert q.messages[found.value] in q.messages; }
  }

  /** What was accepted stays on record. */
  lemma {:induction false} AcceptedStays(run: seq<(Queue, Log)>, events: seq<Event>, j: nat, k: nat)
    requires IsRun(run, events) && j <= k < |run|
    ensures run[j].1.accepted <= run[k].1.accepted
  {
    if j < k {
      AcceptedStays(run, events, j, k - 1);
      StepAccepts(run[k - 1].0, run[k - 1].1, events[k - 1], run[k].0, run[k].1);
    }
  }

  lemma {:induction false} StepAccepts(q: Queue, log: Log, e: Event, q': Queue, log': Log)
    requires Step(q, log, e, q', log')
    ensures log'.accepted == if e.Send? then log.accepted + [e.m] else log.accepted
  {
    hide Selected, Accept;
  }

  /** Step `k` of a run is a search or a wake-up of call `x`, which asked for `r` and gets `reply`. */
  ghost predicate RepliesTo(run: seq<(Queue, Log)>, events: seq<Event>, k: nat, x: nat, r: Request, reply: Reply)
    requires IsRun(run, events)
  {
    && k < |events|
    && var (q, log, q', log') := (run[k].0, run[k].1, run[k + 1].0, run[k + 1].1);
       match events[k]
       case Receive(y, r', nowait) => y == x && r' == r && Searched(q, log, x, r, nowait, q', log', reply)
       case Wake(y, signalled) =>
         y == x && x in q.sleepers && q.sleepers[x].req == r && Woken(q, log, x, signalled, q', log', reply)
       case _ => false
  }

  /** What is received is the beginning of what was sent. Over every run, whoever is given the message
      of an earlier send is given its type and the first bytes of its text, as many as asked for or
      there are, and less than all only with MSG_NOERROR. */
  lemma {:induction false} SentIsReceived(run: seq<(Queue, Log)>, events: seq<Event>, j: nat, k: nat, x: nat,
          r: Request, reply: Reply)
    requires IsRun(run, events) && j < k < |events| && events[j].Send?
    requires RepliesTo(run, events, k, x, r, reply) && reply.Received?
    requires run[k + 1].1.delivered == run[k].1.delivered + [events[j].m.id]
    ensures var text := MsgBody.Text(events[j].m.head, events[j].m.segs);
      && reply.mtype == events[j].m.mtype && reply.text == text[..Least(r.msgsz, |text|)]
      && (r.noerror || |text| <= r.msgsz)
  {
    hide Inv, Woken, Searched;
    RunKeepsInv(run, events, k);
    var (q, log, q', log') := (run[k].0, run[k].1, run[k + 1].0, run[k + 1].1);
    var i: nat;
    if events[k].Wake? {
      i := WakeHands(q, log, x, events[k].signalled, q', log', reply);
    } else {
      i := SearchHands(q, log, x, r, events[k].nowait, q', log', reply);
    }
    SameEnd(log.delivered, i, events[j].m.id);
    StepAccepts(run[j].0, run[j].1, events[j], run[j + 1].0, run[j + 1].1);
    AcceptedStays(run, events, j + 1, k);
    SentAt(run, events, j);
  }

  lemma {:induction false} SameEnd(s: seq<nat>, a: nat, b: nat)
    requires s + [a] == s + [b]
    ensures a == b
  {
    assert (s + [a])[|s|] == (s + [b])[|s|];
  }

  lemma {:induction false} SentAt(run: seq<(Queue, Log)>, events: seq<Event>, j: nat)
    requires IsRun(run, events) && j < |events| && events[j].Send?
    ensures events[j].m.id == |run[j].1.accepted|
  {
    assert Step(run[j].0, run[j].1, events[j], run[j + 1].0, run[j + 1].1);
  }

  /** No message is lost and none is delivered twice: in every state of every run each accepted
      message is on the queue, or in the slot of one receiver, or delivered, or freed together with
      the queue, and in one of these places only. */
  lemma {:induction false} OnePlace(run: seq<(Queue, Log)>, events: seq<Event>, k: nat, i: nat)
    requires IsRun(run, events) && k < |run| && i < |run[k].1.accepted|
    ensures var (q, log) := run[k]; var m := log.accepted[i];
      && i in log.place && m.id == i
      && (m in q.messages <==> log.place[i] == Queued)
      && (forall x :: x in q.sleepers ==> (q.sleepers[x].slot == Got(m) <==> log.place[i] == Held(x)))
      && (i in log.delivered <==> log.place[i] == Delivered) && NoDuplicates(log.delivered)
      && (log.place[i].Held? ==> log.place[i].holder in q.sleepers)
      && (log.place[i] == Freed ==> !q.alive)
  {
    RunKeepsInv(run, events, k);
  }

  /** A queued message is never one that a receiver on the list asks for, what a receiver was handed
      is what it asked for, a receiver is never left waiting on a queue that is gone, and the byte
      and message counts are those of the queued messages. */
  lemma {:induction false} RunIsSound(run: seq<(Queue, Log)>, events: seq<Event>, k: nat)
    requires IsRun(run, events) && k < |run|
    ensures var (q, log) := run[k];
      && (forall m, x :: m in q.messages && x in q.listed ==> x in q.sleepers && !Matches(m, q.sleepers[x].req))
      && (forall x :: x in q.sleepers && q.sleepers[x].slot.Got? ==>
            var (m, r) := (q.sleepers[x].slot.msg, q.sleepers[x].req);
            TestMsg(m, r.mtype, r.mode) && (r.noerror || m.ts <= r.msgsz))
      && (forall x :: x in q.sleepers && q.sleepers[x].slot == Waiting ==> q.alive && x in q.listed)
      && q.cbytes == Size(q.messages) && q.qnum == |q.messages|
      && forall i, j :: 0 <= i < j < |q.messages| ==> q.messages[i].id < q.messages[j].id
  {
    RunKeepsInv(run, events, k);
    var (q, log) := run[k];
    forall m, x | m in q.messages && x in q.listed ensures x in q.sleepers && !Matches(m, q.sleepers[x].req) {
      assert !Asks(q.sleepers, x, m);
    }
  }
}
