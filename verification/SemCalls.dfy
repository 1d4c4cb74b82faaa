/** What becomes of the operation list of each semop over whole runs (ipc/sem.c): which entry of
    the log is its own, and when it was done although the call reports an error. */
module SemCalls {
  import opened SemOps
  import opened SemRuns

  /** What a caller asked for. */
  datatype Asked = Asked(proc: nat, ops: seq<Op>)

  /** Sleepers carry, and the log records, what the caller of that number asked for. */
  ghost predicate Tied(s: State, asked: seq<Asked>) {
    && |asked| == s.nextCall
    && SleepersTied(s.pending, asked) && SleepersTied(s.released, asked) && LogTied(s.log, asked)
  }

  ghost predicate SleepersTied(q: seq<Sleeper>, asked: seq<Asked>) {
    forall i :: 0 <= i < |q| ==> q[i].call < |asked| && asked[q[i].call] == Asked(q[i].proc, q[i].ops)
  }

  ghost predicate LogTied(log: seq<Action>, asked: seq<Asked>) {
    forall m :: 0 <= m < |log| && log[m].Done? ==>
      log[m].call < |asked| && asked[log[m].call] == Asked(log[m].proc, log[m].ops)
  }

  // ---- every step keeps the tie ----

  lemma {:induction false} RemovedTied(q: seq<Sleeper>, i: nat, asked: seq<Asked>)
    requires SleepersTied(q, asked) && i < |q|
    ensures SleepersTied(RemoveAt(q, i), asked)
  {}

  lemma {:induction false} ServedTied(s: State, i: nat, asked: seq<Asked>)
    requires Ready(s) && Tied(s, asked) && i < |s.pending|
    ensures Tied(Served(s, i), asked)
  {
    hide Ready, BooksOk, Do, TryOps;
    RemovedTied(s.pending, i, asked);
  }

  lemma {:induction false} UpdateQueueTied(s: State, i: nat, asked: seq<Asked>)
    requires Ready(s) && Tied(s, asked) && i <= |s.pending|
    ensures Tied(UpdateQueue(s, i), asked)
    decreases |s.pending| - i
  {
    hide Ready, Served, TryOps;
    if i < |s.pending| {
      if s.pending[i].status == 1 || QueueTry(s, i) > 0 {
        UpdateQueueTied(s, i + 1, asked);
      } else if !(QueueTry(s, i) == 0 && s.pending[i].decrease) {
        ServedTied(s, i, asked);
        UpdateQueueTied(Served(s, i), i, asked);
      }
    }
  }

  lemma {:induction false} UpdatedTied(s: State, ops: seq<Op>, asked: seq<Asked>)
    requires Ready(s) && Tied(s, asked)
    ensures Tied(Updated(s, ops), asked)
  {
    hide Ready, Tied, UpdateQueue;
    if Alters(ops) { UpdateQueueTied(s, 0, asked); }
  }

  lemma {:induction false} FinishTied(s: State, call: nat, proc: nat, ops: seq<Op>, asked: seq<Asked>)
    requires Ready(s) && CanTry(s, proc, ops) && Tied(s, asked) && call < |asked| && asked[call] == Asked(proc, ops)
    ensures Tied(Finish(s, call, proc, ops), asked)
  {
    hide Updated, TryOps, Do;
    var r := TryOps(s.books, proc, ops);
    if r == 0 {
      DoKeepsBooksOk(s.books, Done(call, proc, ops));
      UpdatedTied(Ret(Act(s, Done(call, proc, ops)), call, r, false), ops, asked);
    } else {
      UpdatedTied(Ret(s, call, r, false), ops, asked);
    }
  }

  /** More was asked for since. */
  lemma {:induction false} AskedMore(s: State, asked: seq<Asked>, a: Asked)
    requires Tied(s, asked)
    ensures Tied(Counted(s), asked + [a])
  {}

  lemma {:induction false} SemopTied(s: State, proc: nat, ops: seq<Op>, slotEmpty: bool, asked: seq<Asked>)
    requires Ready(s) && Tied(s, asked)
    ensures Tied(SemopStep(s, proc, ops, slotEmpty), asked + [Asked(proc, ops)])
  {
    hide Finish, TryOps, Do;
    AskedMore(s, asked, Asked(proc, ops));
    var s0 := s.(nextCall := s.nextCall + 1);
    if 1 <= |ops| <= SEMOPM && s.alive && OpsFit(ops, |s.books.vals|) {
      var s1 := WithUndo(s0, proc, ops);
      if TryOps(s1.books, proc, ops) <= 0 { FinishTied(s1, s.nextCall, proc, ops, asked + [Asked(proc, ops)]); }
    }
  }

  lemma {:induction false} WokenTied(s: State, i: nat, asked: seq<Asked>)
    requires Ready(s) && Tied(s, asked) && i < |s.pending|
    ensures Tied(WakeQueued(s, i), asked)
  {
    hide Finish, Updated, TryOps;
    var q := s.pending[i];
    RemovedTied(s.pending, i, asked);
    if q.status == 1 {
      if QueueTry(s, i) <= 0 { FinishTied(Drop(s, i), q.call, q.proc, q.ops, asked); }
    } else {
      UpdatedTied(Ret(Drop(s, i), q.call, q.status, false), q.ops, asked);
    }
  }

  lemma {:induction false} ChangedTied(s: State, a: Action, asked: seq<Asked>)
    requires Ready(s) && Tied(s, asked) && Sensible(s.books, a) && !a.Done?
    requires a.Exited? ==> forall i :: 0 <= i < |s.pending| ==> s.pending[i].proc != a.proc
    ensures Tied(Changed(s, a), asked)
  {
    hide UpdateQueue, Do;
    DoKeepsBooksOk(s.books, a);
    UpdateQueueTied(Act(s, a), 0, asked);
  }

  function AskedBy(asked: seq<Asked>, e: Event): seq<Asked> {
    if e.Semop? then asked + [Asked(e.proc, e.ops)] else asked
  }

  lemma {:induction false} NextKeepsTied(s: State, e: Event, asked: seq<Asked>)
    requires Ready(s) && Enabled(s, e) && Tied(s, asked)
    ensures Tied(Next(s, e), AskedBy(asked, e))
  {
    hide Ready, SemopStep, WakeQueued, Changed;
    match e
    case Semop(proc, ops, slotEmpty) => SemopTied(s, proc, ops, slotEmpty, asked);
    case Woken(i) => WokenTied(s, i, asked);
    case ReleasedRuns(i, slotEmpty) => RemovedTied(s.released, i, asked);
    case ValueSet(num, val) => ChangedTied(s, ValSet(num, val), asked);
    case AllValuesSet(vals) => ChangedTied(s, AllSet(vals), asked);
    case Removed =>
    case QueuedDies(i) => RemovedTied(s.pending, i, asked);
    case ReleasedDies(i) => RemovedTied(s.released, i, asked);
    case ExitAdjusts(proc) =>
      if Find(s.books.undos, proc) >= 0 { ChangedTied(s, Exited(proc), asked); }
  }

  // ---- what returns ----

  /** The set is gone, and released sleeper `i`, whose list was done for it, wakes to an empty slot. */
  ghost predicate TooLate(s: State, e: Event, c: nat) {
    && e.ReleasedRuns? && e.slotEmpty && !s.alive
    && e.i < |s.released| && s.released[e.i].call == c && s.released[e.i].status == 0
  }

  /** At most one call returns in a step, and it is marked late exactly in that case. */
  ghost predicate OneReturn(s: State, e: Event, t: State) {
    t.returned == s.returned
    || (|t.returned| == |s.returned| + 1 && t.returned[..|s.returned|] == s.returned
        && var r := t.returned[|s.returned|]; r.late <==> TooLate(s, e, r.call))
  }

  lemma {:induction false} UpdateQueueReturns(s: State, i: nat)
    requires Ready(s) && i <= |s.pending|
    ensures UpdateQueue(s, i).returned == s.returned
    decreases |s.pending| - i
  {
    hide Ready, TryOps, Do;
    if i < |s.pending| {
      if s.pending[i].status == 1 || QueueTry(s, i) > 0 {
        UpdateQueueReturns(s, i + 1);
      } else if !(QueueTry(s, i) == 0 && s.pending[i].decrease) {
        UpdateQueueReturns(Served(s, i), i);
      }
    }
  }

  lemma {:induction false} FinishReturns(s: State, call: nat, proc: nat, ops: seq<Op>)
    requires Ready(s) && CanTry(s, proc, ops)
    ensures Finish(s, call, proc, ops).returned == s.returned + [Return(call, TryOps(s.books, proc, ops), false)]
  {
    hide UpdateQueue, TryOps, Do;
    var r := TryOps(s.books, proc, ops);
    if r == 0 { DoKeepsBooksOk(s.books, Done(call, proc, ops)); }
    var t := Ret(if r == 0 then Act(s, Done(call, proc, ops)) else s, call, r, false);
    if Alters(ops) { UpdateQueueReturns(t, 0); }
  }

  lemma {:induction false} AppendReturns(s: State, e: Event, t: State, r: Return)
    requires t.returned == s.returned + [r] && (r.late <==> TooLate(s, e, r.call))
    ensures OneReturn(s, e, t)
  {}

  lemma {:induction false} SemopReturns(s: State, proc: nat, ops: seq<Op>, slotEmpty: bool)
    requires Ready(s)
    ensures OneReturn(s, Semop(proc, ops, slotEmpty), SemopStep(s, proc, ops, slotEmpty))
  {
    hide Finish, TryOps, Do, OneReturn;
    var e, t := Semop(proc, ops, slotEmpty), SemopStep(s, proc, ops, slotEmpty);
    var s0 := s.(nextCall := s.nextCall + 1);
    if |ops| < 1 || |ops| > SEMOPM || !s.alive || !OpsFit(ops, |s.books.vals|) {
      AppendReturns(s, e, t, t.returned[|s.returned|]);
    } else {
      var s1 := WithUndo(s0, proc, ops);
      if TryOps(s1.books, proc, ops) <= 0 {
        FinishReturns(s1, s.nextCall, proc, ops);
        AppendReturns(s, e, t, t.returned[|s.returned|]);
      } else {
        NoReturn(s, e, t);
      }
    }
  }

  lemma {:induction false} NoReturn(s: State, e: Event, t: State)
    requires t.returned == s.returned
    ensures OneReturn(s, e, t)
  {}

  lemma {:induction false} WokenReturns(s: State, i: nat)
    requires Ready(s) && i < |s.pending|
    ensures OneReturn(s, Woken(i), WakeQueued(s, i))
  {
    hide Finish, UpdateQueue, TryOps, OneReturn;
    var q, t := s.pending[i], WakeQueued(s, i);
    if q.status != 1 {
      var u := Ret(Drop(s, i), q.call, q.status, false);
      if Alters(q.ops) { UpdateQueueReturns(u, 0); }
      AppendReturns(s, Woken(i), t, t.returned[|s.returned|]);
    } else if QueueTry(s, i) <= 0 {
      FinishReturns(Drop(s, i), q.call, q.proc, q.ops);
      AppendReturns(s, Woken(i), t, t.returned[|s.returned|]);
    } else {
      NoReturn(s, Woken(i), t);
    }
  }

  lemma {:induction false} ChangedReturns(s: State, a: Action)
    requires Ready(s) && Sensible(s.books, a)
    requires a.Exited? ==> forall i :: 0 <= i < |s.pending| ==> s.pending[i].proc != a.proc
    ensures Changed(s, a).returned == s.returned
  {
    hide UpdateQueue, Do;
    DoKeepsBooksOk(s.books, a);
    UpdateQueueReturns(Act(s, a), 0);
  }

  lemma {:induction false} NextReturns(s: State, e: Event)
    requires Ready(s) && Enabled(s, e)
    ensures OneReturn(s, e, Next(s, e))
    ensures forall c :: TooLate(s, e, c) ==>
      |Next(s, e).returned| > 0 && Next(s, e).returned[|Next(s, e).returned| - 1].call == c
  {
    hide Ready, SemopStep, WakeQueued, Changed, OneReturn;
    var t := Next(s, e);
    match e
    case Semop(proc, ops, slotEmpty) => SemopReturns(s, proc, ops, slotEmpty);
    case Woken(i) => WokenReturns(s, i);
    case ReleasedRuns(i, slotEmpty) => AppendReturns(s, e, t, t.returned[|s.returned|]);
    case ValueSet(num, val) =>
      ChangedReturns(s, ValSet(num, val));
      NoReturn(s, e, t);
    case AllValuesSet(vals) =>
      ChangedReturns(s, AllSet(vals));
      NoReturn(s, e, t);
    case Removed => NoReturn(s, e, t);
    case QueuedDies(i) => NoReturn(s, e, t);
    case ReleasedDies(i) => NoReturn(s, e, t);
    case ExitAdjusts(proc) =>
      if Find(s.books.undos, proc) >= 0 { ChangedReturns(s, Exited(proc)); }
      NoReturn(s, e, t);
  }

  // ---- whole runs ----

  /** What the callers of a run asked for, in the order of their numbers. */
  ghost function AskedUpTo(events: seq<Event>, k: nat): seq<Asked>
    requires k <= |events|
  {
    if k == 0 then [] else AskedBy(AskedUpTo(events, k - 1), events[k - 1])
  }

  lemma {:induction false} RunLength(n: nat, states: seq<State>, events: seq<Event>)
    requires IsRun(n, states, events)
    ensures |states| == |events| + 1
  {}

  lemma {:induction false} RunKeepsTied(n: nat, states: seq<State>, events: seq<Event>, k: nat)
    requires IsRun(n, states, events) && k < |states|
    ensures Tied(states[k], AskedUpTo(events, k))
  {
    if k > 0 {
      hide Next;
      RunKeepsTied(n, states, events, k - 1);
      NextKeepsTied(states[k - 1], events[k - 1], AskedUpTo(events, k - 1));
    }
  }

  lemma {:induction false} AskedStays(events: seq<Event>, j: nat, k: nat)
    requires j <= k <= |events|
    ensures AskedUpTo(events, j) <= AskedUpTo(events, k)
  {
    if j < k { AskedStays(events, j, k - 1); }
  }

  /** The call made by `events[j]` has the number `states[j].nextCall`. */
  lemma {:induction false} AskedAt(n: nat, states: seq<State>, events: seq<Event>, j: nat, k: nat)
    requires IsRun(n, states, events) && j < k < |states| && events[j].Semop?
    ensures states[j].nextCall < |AskedUpTo(events, k)|
    ensures AskedUpTo(events, k)[states[j].nextCall] == Asked(events[j].proc, events[j].ops)
  {
    hide Next, Ready;
    RunKeepsTied(n, states, events, j);
    AskedStays(events, j + 1, k);
  }

  /** Every call number in use is that of one call. */
  lemma {:induction false} CameFrom(n: nat, states: seq<State>, events: seq<Event>, k: nat, c: nat) returns (j: nat)
    requires IsRun(n, states, events) && k < |states| && c < states[k].nextCall
    ensures j < k && events[j].Semop? && states[j].nextCall == c
  {
    RunKeepsTied(n, states, events, k);
    RunKeepsTied(n, states, events, k - 1);
    if c < states[k - 1].nextCall { j := CameFrom(n, states, events, k - 1, c); } else { j := k - 1; }
  }

  /** Entry `m` of the log is one of call `c`. */
  ghost predicate EntryOf(log: seq<Action>, m: int, c: nat) { 0 <= m < |log| && log[m].Done? && log[m].call == c }

  /** The log has one entry of that call, and it is `a`. */
  ghost predicate OnlyEntry(log: seq<Action>, a: Action)
    requires a.Done?
  {
    exists m :: EntryOf(log, m, a.call) && log[m] == a && forall m' :: EntryOf(log, m', a.call) ==> m' == m
  }

  ghost predicate NoEntry(log: seq<Action>, c: nat) { forall m :: !EntryOf(log, m, c) }

  lemma {:induction false} CountNone(log: seq<Action>, c: nat)
    ensures Count(log, c) == 0 <==> NoEntry(log, c)
  {
    if log != [] {
      var n := |log| - 1;
      CountNone(log[..n], c);
      assert forall m :: 0 <= m < n ==> log[..n][m] == log[m];
      if Count(log, c) == 0 {
        forall m ensures !EntryOf(log, m, c) { assert !EntryOf(log[..n], m, c); }
      }
      if NoEntry(log, c) {
        assert !EntryOf(log, n, c);
        forall m ensures !EntryOf(log[..n], m, c) { assert !EntryOf(log, m, c); }
      }
    }
  }

  lemma {:induction false} CountOne(log: seq<Action>, c: nat) returns (m: int)
    requires Count(log, c) == 1
    ensures EntryOf(log, m, c) && forall m' :: EntryOf(log, m', c) ==> m' == m
  {
    var n := |log| - 1;
    CountNone(log[..n], c);
    assert forall i :: 0 <= i < n ==> log[..n][i] == log[i];
    if log[n].Done? && log[n].call == c {
      m := n;
      forall m' | EntryOf(log, m', c) ensures m' == m { assert !EntryOf(log[..n], m', c); }
    } else {
      m := CountOne(log[..n], c);
      forall m' | EntryOf(log, m', c) ensures m' == m { assert EntryOf(log[..n], m', c); }
    }
  }

  /** At some point of the run the set was gone when the sleeper of call `c`, whose list had been
      done for it, woke to an empty slot. */
  ghost predicate WasTooLate(states: seq<State>, events: seq<Event>, k: nat, c: nat)
    requires |states| == |events| + 1 && k < |states|
  {
    exists m :: 0 <= m < k && TooLate(states[m], events[m], c)
  }

  lemma {:induction false} ReturnedStays(n: nat, states: seq<State>, events: seq<Event>, j: nat, k: nat)
    requires IsRun(n, states, events) && j <= k < |states|
    ensures states[j].returned <= states[k].returned
  {
    if j < k {
      hide Next;
      ReturnedStays(n, states, events, j, k - 1);
      NextReturns(states[k - 1], events[k - 1]);
    }
  }

  lemma {:induction false} TwiceInBag(s: State, i: nat, j: nat)
    requires Unique(s) && i < |s.returned| && j < |s.returned| && s.returned[i].call == s.returned[j].call
    ensures i == j
  {
    assert Bag(s)[s.returned[i].call] <= 1;
    if i < j { TwiceIn(Returns(s.returned), i, j); }
    if j < i { TwiceIn(Returns(s.returned), j, i); }
  }

  lemma {:induction false} TwiceIn(r: seq<nat>, a: nat, b: nat)
    requires a < b < |r| && r[a] == r[b]
    ensures multiset(r)[r[a]] >= 2
  {
    assert r == r[..a] + [r[a]] + r[a + 1..];
    assert r[b] == r[a + 1..][b - a - 1];
    assert r[b] in multiset(r[a + 1..]);
  }

  lemma {:induction false} NotReleasedToo(s: State, i: nat, j: nat)
    requires Unique(s) && i < |s.returned| && j < |s.released|
    ensures s.released[j].call != s.returned[i].call
  {
    assert Returns(s.returned)[i] in multiset(Returns(s.returned));
    assert Calls(s.released)[j] in multiset(Calls(s.released));
    assert Bag(s)[s.returned[i].call] <= 1;
  }

  /** A returned call is marked late exactly if it was too late. */
  lemma {:induction false} LateIff(n: nat, states: seq<State>, events: seq<Event>, k: nat, i: nat)
    requires IsRun(n, states, events) && k < |states| && i < |states[k].returned|
    ensures states[k].returned[i].late <==> WasTooLate(states, events, k, states[k].returned[i].call)
    decreases k
  {
    hide Next, Inv, Ready;
    var r := states[k].returned[i];
    if k > 0 {
      var s, e := states[k - 1], events[k - 1];
      NextReturns(s, e);
      Distinct(n, states, events, k - 1);
      if i < |s.returned| {
        assert s.returned[i] == r;
        LateIff(n, states, events, k - 1, i);
        if TooLate(s, e, r.call) { NotReleasedToo(s, i, e.i); }
      } else {
        forall m | 0 <= m < k - 1 ensures !TooLate(states[m], events[m], r.call) {
          NotLateBefore(n, states, events, m, k, i);
        }
      }
    }
  }

  lemma {:induction false} Distinct(n: nat, states: seq<State>, events: seq<Event>, k: nat)
    requires IsRun(n, states, events) && k < |states|
    ensures Unique(states[k])
  {
    hide IsRun;
    RunKeepsInv(n, states, events, k);
  }

  /** A call that is too late returns there and then. */
  lemma {:induction false} LateReturns(n: nat, states: seq<State>, events: seq<Event>, m: nat, k: nat, c: nat)
    returns (i: nat)
    requires IsRun(n, states, events) && m < k < |states| && TooLate(states[m], events[m], c)
    ensures i < |states[m + 1].returned| && i < |states[k].returned| && states[k].returned[i].call == c
  {
    hide Next, Ready;
    NextReturns(states[m], events[m]);
    ReturnedStays(n, states, events, m + 1, k);
    i := |states[m + 1].returned| - 1;
  }

  lemma {:induction false} NotLateBefore(n: nat, states: seq<State>, events: seq<Event>, m: nat, k: nat, i: nat)
    requires IsRun(n, states, events) && m < k - 1 < k < |states|
    requires |states[k - 1].returned| <= i < |states[k].returned|
    ensures !TooLate(states[m], events[m], states[k].returned[i].call)
  {
    hide Next, Ready, Unique, IsRun;
    RunLength(n, states, events);
    Distinct(n, states, events, k);
    if TooLate(states[m], events[m], states[k].returned[i].call) {
      var j := LateReturns(n, states, events, m, k, states[k].returned[i].call);
      ReturnedStays(n, states, events, m + 1, k - 1);
      TwiceInBag(states[k], i, j);
    }
  }

  /** Exactly once. Take any semop of a run that has returned. If it returned 0, its operation list,
      as the caller passed it, was done exactly once. If it returned an error, nothing was done for
      it, unless it was too late: then its list was done once and it was told EIDRM. */
  lemma {:induction false} ExactlyOnce(n: nat, states: seq<State>, events: seq<Event>, j: nat, k: nat, i: nat)
    requires IsRun(n, states, events) && j < k < |states| && events[j].Semop?
    requires i < |states[k].returned| && states[k].returned[i].call == states[j].nextCall
    ensures var c, code, log := states[j].nextCall, states[k].returned[i].code, states[k].log;
      if code == 0 then OnlyEntry(log, Done(c, events[j].proc, events[j].ops))
      else if WasTooLate(states, events, k, c) then code == EIDRM &&
        OnlyEntry(log, Done(c, events[j].proc, events[j].ops))
      else NoEntry(log, c)
  {
    hide IsRun;
    RunLength(n, states, events);
    RunKeepsInv(n, states, events, k);
    RunKeepsTied(n, states, events, k);
    AskedAt(n, states, events, j, k);
    LateIff(n, states, events, k, i);
    var s, c := states[k], states[j].nextCall;
    assert ReturnOk(s, s.returned[i]);
    CountNone(s.log, c);
    if Count(s.log, c) == 1 {
      var m := CountOne(s.log, c);
      assert s.log[m] == Done(c, events[j].proc, events[j].ops);
    }
  }

  /** Call `c` reports an error although its list was done. */
  ghost predicate DoneYetFailed(s: State, c: nat) {
    exists i :: 0 <= i < |s.returned| && s.returned[i].call == c && s.returned[i].code != 0 && !NoEntry(s.log, c)
  }

  /** That is so exactly if the call was too late ... */
  lemma {:induction false} DoneYetFailedIff(n: nat, states: seq<State>, events: seq<Event>, k: nat, c: nat)
    requires IsRun(n, states, events) && k < |states|
    ensures DoneYetFailed(states[k], c) <==> WasTooLate(states, events, k, c)
  {
    hide IsRun;
    RunLength(n, states, events);
    var s := states[k];
    RunKeepsInv(n, states, events, k);
    CountNone(s.log, c);
    if DoneYetFailed(s, c) {
      var i :| 0 <= i < |s.returned| && s.returned[i].call == c && s.returned[i].code != 0 && !NoEntry(s.log, c);
      assert ReturnOk(s, s.returned[i]);
      LateIff(n, states, events, k, i);
    }
    if WasTooLate(states, events, k, c) {
      var m :| 0 <= m < k && TooLate(states[m], events[m], c);
      var i := LateReturns(n, states, events, m, k, c);
      LateIff(n, states, events, k, i);
      assert ReturnOk(s, s.returned[i]);
    }
  }

  /** ... and never as long as the set exists. */
  lemma {:induction false} NoneFailedWhileAlive(n: nat, states: seq<State>, events: seq<Event>, k: nat, c: nat)
    requires IsRun(n, states, events) && k < |states| && states[k].alive
    ensures !DoneYetFailed(states[k], c)
  {
    hide IsRun;
    var s := states[k];
    RunKeepsInv(n, states, events, k);
    CountNone(s.log, c);
    forall i | 0 <= i < |s.returned| && s.returned[i].call == c && s.returned[i].code != 0 ensures NoEntry(s.log, c) {
      assert ReturnOk(s, s.returned[i]);
    }
  }
}
