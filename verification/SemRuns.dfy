/** A semaphore set over every interleaving of callers, `update_queue`, wake-ups, signals,
    SETVAL, SETALL, exits and removal (ipc/sem.c). Each section under `sem_lock` is one step.

    The log records every change of the books; a semop is "done" once per entry in the log.
    The set is followed until it is removed and its last sleeper has returned. */
module SemRuns {
  import opened SemOps

  const SEMOPM := 32

  /** A `sem_queue` on the stack of a sleeping caller. */
  datatype Sleeper = Sleeper(proc: nat, call: nat, ops: seq<Op>, alter: bool, decrease: bool, status: int)

  datatype Action =
    | Done(call: nat, proc: nat, ops: seq<Op>)
    | Alloced(proc: nat)
    | Exited(proc: nat)
    | ValSet(num: nat, val: int)
    | AllSet(vals: seq<int>)

  /** A finished call. `late` marks one whose operations `update_queue` had already done when
      the set was removed, and which found the identifier slot empty on waking. */
  datatype Return = Return(call: nat, code: int, late: bool)

  /** `pending` is the queue; `released` are the sleepers taken off it that have not run yet. */
  datatype State = State(alive: bool, books: Books, pending: seq<Sleeper>, released: seq<Sleeper>,
                         log: seq<Action>, returned: seq<Return>, nextCall: nat)

  // ---- the log ----

  ghost predicate Sensible(b: Books, a: Action) {
    match a
    case Done(_, proc, ops) =>
      Shaped(b) && OpsFit(ops, |b.vals|) && TryOps(b, proc, ops) == 0 && (UsesUndo(ops) ==> Find(b.undos, proc) >= 0)
    case Alloced(proc) => Find(b.undos, proc) < 0
    case Exited(proc) => true
    case ValSet(num, val) => num < |b.vals| && 0 <= val <= SEMVMX
    case AllSet(vals) => |vals| == |b.vals| && forall i :: 0 <= i < |vals| ==> 0 <= vals[i] <= SEMVMX
  }

  ghost predicate BooksOk(b: Books) {
    && Shaped(b) && ValsOk(b.vals)
    && (forall i :: 0 <= i < |b.undos| ==> AdjOk(b.undos[i].adj))
    && (forall i, j :: 0 <= i < j < |b.undos| ==> b.undos[i].proc != b.undos[j].proc)
  }

  function Do(b: Books, a: Action): Books
    requires BooksOk(b) && Sensible(b, a)
  {
    match a
    case Done(_, proc, ops) => Apply(b, proc, ops)
    case Alloced(proc) => Alloc(b, proc)
    case Exited(proc) => Exit(b, proc)
    case ValSet(num, val) => SetVal(b, num, val)
    case AllSet(vals) => SetAll(b, vals)
  }

  /** Undo structures stay until their process exits. */
  ghost predicate KeepsUndos(b: Books, b': Books) { forall p :: Find(b.undos, p) >= 0 ==> Find(b'.undos, p) >= 0 }

  lemma {:induction false} DoneOk(b: Books, proc: nat, ops: seq<Op>)
    requires BooksOk(b) && Sensible(b, Done(0, proc, ops))
    ensures BooksOk(Apply(b, proc, ops)) && |Apply(b, proc, ops).vals| == |b.vals| && KeepsUndos(b, Apply(b, proc, ops))
  {
    ZeroIsOk(b, proc);
    TryZero(b.vals, AdjOf(b, proc), ops, 0);
    PrefixOk(b.vals, AdjOf(b, proc), ops, |ops|);
    SameProcs(b.undos, Apply(b, proc, ops).undos);
  }

  lemma {:induction false} AllocOk(b: Books, proc: nat)
    requires BooksOk(b) && Find(b.undos, proc) < 0
    ensures BooksOk(Alloc(b, proc)) && |Alloc(b, proc).vals| == |b.vals| && KeepsUndos(b, Alloc(b, proc))
    ensures Find(Alloc(b, proc).undos, proc) >= 0
  {
    assert Alloc(b, proc).undos[1..] == b.undos;
  }

  lemma {:induction false} ExitOk(b: Books, proc: nat)
    requires BooksOk(b)
    ensures BooksOk(Exit(b, proc)) && |Exit(b, proc).vals| == |b.vals|
    ensures forall p :: p != proc && Find(b.undos, p) >= 0 ==> Find(Exit(b, proc).undos, p) >= 0
  {
    var u := Find(b.undos, proc);
    if u >= 0 { RemoveKeeps(b.undos, u); }
  }

  lemma {:induction false} SetValOk(b: Books, num: nat, val: int)
    requires BooksOk(b) && num < |b.vals| && 0 <= val
    ensures BooksOk(SetVal(b, num, val)) && |SetVal(b, num, val).vals| == |b.vals| && KeepsUndos(b, SetVal(b, num, val))
  {
    SameProcs(b.undos, SetVal(b, num, val).undos);
  }

  lemma {:induction false} SetAllOk(b: Books, vals: seq<int>)
    requires BooksOk(b) && ValsOk(vals)
    ensures BooksOk(SetAll(b, vals)) && SetAll(b, vals).vals == vals && KeepsUndos(b, SetAll(b, vals))
  {
    SameProcs(b.undos, SetAll(b, vals).undos);
  }

  /** No value is ever negative and no adjustment leaves its range, whatever is done. */
  lemma {:induction false} DoKeepsBooksOk(b: Books, a: Action)
    requires BooksOk(b) && Sensible(b, a)
    ensures BooksOk(Do(b, a)) && |Do(b, a).vals| == |b.vals|
    ensures !a.Exited? ==> KeepsUndos(b, Do(b, a))
    ensures a.Alloced? ==> Find(Do(b, a).undos, a.proc) >= 0
    ensures a.Exited? ==> forall p :: p != a.proc && Find(b.undos, p) >= 0 ==> Find(Do(b, a).undos, p) >= 0
  {
    hide BooksOk, KeepsUndos, Apply, Alloc, Exit, SetVal, SetAll;
    match a
    case Done(_, proc, ops) => DoneOk(b, proc, ops);
    case Alloced(proc) => AllocOk(b, proc);
    case Exited(proc) => ExitOk(b, proc);
    case ValSet(num, val) => SetValOk(b, num, val);
    case AllSet(vals) => SetAllOk(b, vals);
  }

  lemma {:induction false} ZeroIsOk(b: Books, proc: nat)
    requires BooksOk(b)
    ensures |AdjOf(b, proc)| == |b.vals| && AdjOk(AdjOf(b, proc))
  {}

  lemma {:induction false} SameProcs(a: seq<Undo>, b: seq<Undo>)
    requires |a| == |b| && forall i :: 0 <= i < |a| ==> a[i].proc == b[i].proc
    ensures forall p :: Find(a, p) == Find(b, p)
  {
    if a != [] { SameProcs(a[1..], b[1..]); }
  }

  lemma {:induction false} RemoveKeeps(undos: seq<Undo>, u: nat)
    requires u < |undos|
    ensures forall p :: p != undos[u].proc && Find(undos, p) >= 0 ==> Find(undos[..u] + undos[u + 1..], p) >= 0
  {
    var r := undos[..u] + undos[u + 1..];
    forall p | p != undos[u].proc && Find(undos, p) >= 0 ensures Find(r, p) >= 0 {
      var i := Find(undos, p);
      assert if i < u then r[i].proc == p else r[i - 1].proc == p;
    }
  }

  /** How often the log says that call `c` was done. */
  function Count(log: seq<Action>, c: nat): nat {
    if log == [] then 0
    else Count(log[..|log| - 1], c) + if log[|log| - 1].Done? && log[|log| - 1].call == c then 1 else 0
  }

  lemma {:induction false} CountAppend(log: seq<Action>, a: Action, c: nat)
    ensures Count(log + [a], c) == Count(log, c) + if a.Done? && a.call == c then 1 else 0
  {
    assert (log + [a])[..|log|] == log;
  }

  /** The books that the log makes of the initial ones. */
  ghost function Replay(init: Books, log: seq<Action>): Books {
    if log == [] then init
    else
      var p, a := Replay(init, log[..|log| - 1]), log[|log| - 1];
      if BooksOk(p) && Sensible(p, a) then Do(p, a) else p
  }

  /** Every entry of the log was possible when it was made. */
  ghost predicate Sound(init: Books, log: seq<Action>) {
    if log == [] then BooksOk(init)
    else
      var p := Replay(init, log[..|log| - 1]);
      Sound(init, log[..|log| - 1]) && BooksOk(p) && Sensible(p, log[|log| - 1])
  }

  function Act(s: State, a: Action): State
    requires BooksOk(s.books) && Sensible(s.books, a)
  {
    s.(books := Do(s.books, a), log := s.log + [a])
  }

  // ---- the invariant ----

  function Calls(q: seq<Sleeper>): (r: seq<nat>)
    ensures |r| == |q| && forall i :: 0 <= i < |q| ==> r[i] == q[i].call
  {
    seq(|q|, i requires 0 <= i < |q| => q[i].call)
  }

  function Returns(r: seq<Return>): (c: seq<nat>)
    ensures |c| == |r| && forall i :: 0 <= i < |r| ==> c[i] == r[i].call
  {
    seq(|r|, i requires 0 <= i < |r| => r[i].call)
  }

  /** Sleeper `i` of the queue with another status. */
  function WithStatus(s: State, i: nat, status: int): State
    requires i < |s.pending|
  {
    s.(pending := s.pending[i := s.pending[i].(status := status)])
  }

  /** A sleeper that may change a value goes to the tail of the queue, one that only waits to its head. */
  function Enqueued(s: State, q: Sleeper): State { s.(pending := if q.alter then s.pending + [q] else [q] + s.pending) }

  /** Released sleeper `i` has run. */
  function Unreleased(s: State, i: nat): State
    requires i < |s.released|
  {
    s.(released := RemoveAt(s.released, i))
  }

  /** One more call was made. */
  function Counted(s: State): State { s.(nextCall := s.nextCall + 1) }

  /** All calls that are asleep, released or returned. */
  function Bag(s: State): multiset<nat> {
    multiset(Calls(s.pending)) + multiset(Calls(s.released)) + multiset(Returns(s.returned))
  }

  /** A sleeper on the queue has had nothing done; its undo structure is there if it needs one. */
  ghost predicate PendingOk(s: State, q: Sleeper) {
    && OpsFit(q.ops, |s.books.vals|)
    && (UsesUndo(q.ops) ==> Find(s.books.undos, q.proc) >= 0)
    && (q.status == EINTR || q.status == 1)
    && Count(s.log, q.call) == 0 && q.call < s.nextCall
  }

  /** A released sleeper has had its list done once if its status is 0, and not at all otherwise. */
  ghost predicate ReleasedOk(s: State, q: Sleeper) {
    q.status <= 0 && q.call < s.nextCall && Count(s.log, q.call) == if q.status == 0 then 1 else 0
  }

  /** A call that returned 0 was done exactly once; one that returned an error was not done,
      unless it is late. */
  ghost predicate ReturnOk(s: State, r: Return) {
    && r.code <= 0 && r.call < s.nextCall
    && (r.late ==> r.code == EIDRM && !s.alive)
    && Count(s.log, r.call) == if r.code == 0 || r.late then 1 else 0
  }

  ghost predicate Recorded(init: Books, b: Books, log: seq<Action>)
  {
    BooksOk(b) && Sound(init, log) && b == Replay(init, log)
  }

  ghost predicate AllPendingOk(s: State) { forall i :: 0 <= i < |s.pending| ==> PendingOk(s, s.pending[i]) }
  ghost predicate AllReleasedOk(s: State) { forall i :: 0 <= i < |s.released| ==> ReleasedOk(s, s.released[i]) }
  ghost predicate AllReturnsOk(s: State) { forall i :: 0 <= i < |s.returned| ==> ReturnOk(s, s.returned[i]) }

  /** No call is in two places. */
  ghost predicate Unique(s: State) { forall c :: Bag(s)[c] <= 1 }

  ghost predicate Unstarted(s: State) { forall c :: c >= s.nextCall ==> Count(s.log, c) == 0 }

  ghost predicate OneSleepEach(s: State)
  {
    forall i, j :: 0 <= i < j < |s.pending| ==> s.pending[i].proc != s.pending[j].proc
  }

  ghost predicate Inv(init: Books, s: State) {
    && Recorded(init, s.books, s.log)
    && AllPendingOk(s) && AllReleasedOk(s) && AllReturnsOk(s)
    && Unique(s) && Unstarted(s) && OneSleepEach(s)
    && (!s.alive ==> s.pending == [])
  }

  function RemoveAt<T>(q: seq<T>, i: nat): seq<T>
    requires i < |q|
  {
    q[..i] + q[i + 1..]
  }

  lemma {:induction false} BagSplit(q: seq<Sleeper>, i: nat)
    requires i < |q|
    ensures multiset(Calls(q)) == multiset(Calls(RemoveAt(q, i))) + multiset{q[i].call}
  {
    var c := Calls(q);
    assert c == c[..i] + [c[i]] + c[i + 1..];
    assert Calls(RemoveAt(q, i)) == c[..i] + c[i + 1..];
  }

  /** No other sleeper and no returned call has the number of a queued one. */
  lemma {:induction false} Alone(s: State, i: nat)
    requires i < |s.pending| && Unique(s)
    ensures forall j :: 0 <= j < |s.pending| && j != i ==> s.pending[j].call != s.pending[i].call
    ensures forall j :: 0 <= j < |s.released| ==> s.released[j].call != s.pending[i].call
    ensures forall j :: 0 <= j < |s.returned| ==> s.returned[j].call != s.pending[i].call
  {
    var c := s.pending[i].call;
    BagSplit(s.pending, i);
    assert c !in multiset(Calls(s.released)) by { assert Bag(s)[c] <= 1; }
    assert c !in multiset(Returns(s.returned)) by { assert Bag(s)[c] <= 1; }
    assert c !in multiset(Calls(RemoveAt(s.pending, i))) by { assert Bag(s)[c] <= 1; }
    forall j | 0 <= j < |s.released| ensures s.released[j].call != c {
      assert Calls(s.released)[j] in Calls(s.released);
    }
    forall j | 0 <= j < |s.returned| ensures s.returned[j].call != c {
      assert Returns(s.returned)[j] in Returns(s.returned);
    }
    var r := Calls(RemoveAt(s.pending, i));
    forall j | 0 <= j < |s.pending| && j != i ensures s.pending[j].call != c {
      assert if j < i then r[j] == s.pending[j].call else r[j - 1] == s.pending[j].call;
      assert s.pending[j].call in r;
    }
  }

  // ---- the steps ----

  /** Every queued operation list can be tried. */
  ghost predicate Ready(s: State) {
    && BooksOk(s.books)
    && forall i :: 0 <= i < |s.pending| ==>
         OpsFit(s.pending[i].ops, |s.books.vals|) &&
           (UsesUndo(s.pending[i].ops) ==> Find(s.books.undos, s.pending[i].proc) >= 0)
  }

  ghost function Release(s: State, i: nat, status: int): State
    requires i < |s.pending|
  {
    s.(pending := RemoveAt(s.pending, i), released := s.released + [s.pending[i].(status := status)])
  }

  ghost function QueueTry(s: State, i: nat): int
    requires Ready(s) && i < |s.pending|
  {
    TryOps(s.books, s.pending[i].proc, s.pending[i].ops)
  }

  /** `update_queue` finished entry `i` on the sleeper's behalf, with result `QueueTry`. */
  ghost function Served(s: State, i: nat): (r: State)
    requires Ready(s) && i < |s.pending|
    ensures Ready(r) && |r.pending| == |s.pending| - 1
  {
    var q := s.pending[i];
    if QueueTry(s, i) == 0 then
      DoKeepsBooksOk(s.books, Done(q.call, q.proc, q.ops));
      Release(Act(s, Done(q.call, q.proc, q.ops)), i, 0)
    else
      Release(s, i, QueueTry(s, i))
  }

  ghost function MarkRetry(s: State, i: nat): State
    requires i < |s.pending|
  {
    WithStatus(s, i, 1)
  }

  /** `update_queue` from entry `i` on: a sleeper that only adds or waits for zero is served, one
      that takes is told to try for itself and ends the pass. */
  ghost function UpdateQueue(s: State, i: nat): State
    requires Ready(s) && i <= |s.pending|
    decreases |s.pending| - i
  {
    if i == |s.pending| then s
    else if s.pending[i].status == 1 || QueueTry(s, i) > 0 then UpdateQueue(s, i + 1)
    else if QueueTry(s, i) == 0 && s.pending[i].decrease then MarkRetry(s, i)
    else UpdateQueue(Served(s, i), i)
  }

  /** Entry `i` is the first of the queue that was not told to retry and need not sleep on. */
  ghost predicate FirstAwake(s: State, i: nat)
    requires Ready(s)
  {
    && i < |s.pending| && s.pending[i].status != 1 && TryOps(s.books, s.pending[i].proc, s.pending[i].ops) <= 0
    && forall j :: 0 <= j < i ==>
         s.pending[j].status == 1 || TryOps(s.books, s.pending[j].proc, s.pending[j].ops) > 0
  }

  lemma {:induction false} PassReaches(s: State, k: nat, i: nat)
    requires Ready(s) && k <= i <= |s.pending|
    requires forall j :: k <= j < i ==>
      s.pending[j].status == 1 || TryOps(s.books, s.pending[j].proc, s.pending[j].ops) > 0
    ensures UpdateQueue(s, k) == UpdateQueue(s, i)
    decreases i - k
  {
    if k < i { PassReaches(s, k + 1, i); }
  }

  /** A pass only adds to the log and to the released sleepers. */
  lemma {:induction false} PassAdds(s: State, i: nat)
    requires Ready(s) && i <= |s.pending|
    ensures s.log <= UpdateQueue(s, i).log && s.released <= UpdateQueue(s, i).released
    ensures UpdateQueue(s, i).alive == s.alive && UpdateQueue(s, i).returned == s.returned
    decreases |s.pending| - i
  {
    hide TryOps, Do, BooksOk;
    if i < |s.pending| {
      if s.pending[i].status == 1 || QueueTry(s, i) > 0 {
        PassAdds(s, i + 1);
      } else if !(QueueTry(s, i) == 0 && s.pending[i].decrease) {
        PassAdds(Served(s, i), i);
      }
    }
  }

  /** What a pass does: nothing if everyone has to sleep on or was told to retry; else the first
      sleeper that need not sleep on is told to retry if its list can be done and takes, and nothing
      else happens; and otherwise it is the first to be released, done or with its error. */
  lemma {:induction false} PassServes(s: State)
    requires Ready(s)
    ensures (forall i :: !(0 <= i < |s.pending| && FirstAwake(s, i))) ==> UpdateQueue(s, 0) == s
    ensures forall i: nat :: FirstAwake(s, i) ==>
      var (q, r, t) := (s.pending[i], TryOps(s.books, s.pending[i].proc, s.pending[i].ops), UpdateQueue(s, 0));
      if r == 0 && q.decrease then t == s.(pending := s.pending[i := q.(status := 1)])
      else
        && |t.released| > |s.released| && t.released[|s.released|] == q.(status := r)
        && (r == 0 ==> |t.log| > |s.log| && t.log[|s.log|] == Done(q.call, q.proc, q.ops))
  {
    hide TryOps, Do;
    forall i: nat | FirstAwake(s, i)
      ensures
        var (q, r, t) := (s.pending[i], TryOps(s.books, s.pending[i].proc, s.pending[i].ops), UpdateQueue(s, 0));
        if r == 0 && q.decrease then t == s.(pending := s.pending[i := q.(status := 1)])
        else
          && |t.released| > |s.released| && t.released[|s.released|] == q.(status := r)
          && (r == 0 ==> |t.log| > |s.log| && t.log[|s.log|] == Done(q.call, q.proc, q.ops))
    {
      PassReaches(s, 0, i);
      if !(QueueTry(s, i) == 0 && s.pending[i].decrease) { PassAdds(Served(s, i), i); }
    }
    if forall i :: !(0 <= i < |s.pending| && FirstAwake(s, i)) {
      NobodyAwake(s, |s.pending|);
      PassReaches(s, 0, |s.pending|);
    }
  }

  lemma {:induction false} NobodyAwake(s: State, n: nat)
    requires Ready(s) && n <= |s.pending| && forall i :: !(0 <= i < |s.pending| && FirstAwake(s, i))
    ensures forall j :: 0 <= j < n ==>
      s.pending[j].status == 1 || TryOps(s.books, s.pending[j].proc, s.pending[j].ops) > 0
  {
    hide TryOps;
    if n > 0 {
      NobodyAwake(s, n - 1);
      assert !FirstAwake(s, n - 1);
    }
  }

  ghost function Ret(s: State, call: nat, code: int, late: bool): State {
    s.(returned := s.returned + [Return(call, code, late)])
  }

  // ---- the invariant is kept ----

  lemma {:induction false} ActKeepsReplay(init: Books, s: State, a: Action)
    requires Recorded(init, s.books, s.log) && Sensible(s.books, a)
    ensures Recorded(init, Act(s, a).books, Act(s, a).log)
  {
    DoKeepsBooksOk(s.books, a);
    assert (s.log + [a])[..|s.log|] == s.log;
  }

  lemma {:induction false} BagAfterRelease(s: State, i: nat, status: int)
    requires i < |s.pending|
    ensures Bag(Release(s, i, status)) == Bag(s)
  {
    BagSplit(s.pending, i);
    var q := s.pending[i].(status := status);
    assert Calls(s.released + [q]) == Calls(s.released) + [q.call];
  }

  lemma {:induction false} PendingAfterRemove(q: seq<Sleeper>, i: nat)
    requires i < |q| && forall a, b :: 0 <= a < b < |q| ==> q[a].proc != q[b].proc
    ensures forall j :: 0 <= j < |RemoveAt(q, i)| ==> RemoveAt(q, i)[j] == q[if j < i then j else j + 1]
    ensures forall a, b :: 0 <= a < b < |RemoveAt(q, i)| ==> RemoveAt(q, i)[a].proc != RemoveAt(q, i)[b].proc
  {}

  /** Doing a queued list once and releasing its sleeper with status 0. */
  lemma {:induction false} DoneKeepsInv(init: Books, s: State, i: nat)
    requires Inv(init, s) && i < |s.pending| && QueueTry(s, i) == 0
    ensures Inv(init, Served(s, i))
  {
    var q := s.pending[i];
    var a := Done(q.call, q.proc, q.ops);
    var t := Act(s, a);
    var r := Release(t, i, 0);
    ActKeepsReplay(init, s, a);
    DoKeepsBooksOk(s.books, a);
    Alone(s, i);
    BagAfterRelease(t, i, 0);
    assert Bag(t) == Bag(s);
    PendingAfterRemove(s.pending, i);
    forall c ensures Count(t.log, c) == Count(s.log, c) + if c == q.call then 1 else 0 { CountAppend(s.log, a, c); }
  }

  lemma {:induction false} ErrorKeepsInv(init: Books, s: State, i: nat)
    requires Inv(init, s) && i < |s.pending| && QueueTry(s, i) < 0
    ensures Inv(init, Served(s, i))
  {
    BagAfterRelease(s, i, QueueTry(s, i));
    PendingAfterRemove(s.pending, i);
  }

  lemma {:induction false} MarkKeepsInv(init: Books, s: State, i: nat, status: int)
    requires Inv(init, s) && i < |s.pending| && (status == 1 || status == EINTR)
    ensures Inv(init, WithStatus(s, i, status))
  {
    var r := WithStatus(s, i, status);
    assert Calls(r.pending) == Calls(s.pending);
    assert Bag(r) == Bag(s);
  }

  lemma {:induction false} UpdateQueueKeepsInv(init: Books, s: State, i: nat)
    requires Inv(init, s) && i <= |s.pending|
    ensures Inv(init, UpdateQueue(s, i))
    decreases |s.pending| - i
  {
    hide Inv, Served;
    InvIsReady(init, s);
    if i < |s.pending| {
      if s.pending[i].status == 1 || QueueTry(s, i) > 0 {
        UpdateQueueKeepsInv(init, s, i + 1);
      } else if QueueTry(s, i) == 0 && s.pending[i].decrease {
        MarkKeepsInv(init, s, i, 1);
      } else {
        if QueueTry(s, i) == 0 { DoneKeepsInv(init, s, i); } else { ErrorKeepsInv(init, s, i); }
        UpdateQueueKeepsInv(init, Served(s, i), i);
      }
    }
  }

  lemma {:induction false} InvIsReady(init: Books, s: State)
    requires Inv(init, s)
    ensures Ready(s)
  {}

  // ---- the calls ----

  predicate Decreases(ops: seq<Op>) { exists k :: 0 <= k < |ops| && ops[k].op < 0 }
  predicate Alters(ops: seq<Op>) { exists k :: 0 <= k < |ops| && ops[k].op != 0 }

  ghost predicate CanTry(s: State, proc: nat, ops: seq<Op>) {
    OpsFit(ops, |s.books.vals|) && (UsesUndo(ops) ==> Find(s.books.undos, proc) >= 0)
  }

  /** The running caller completes or fails: its list is done at most here, its call returns,
      and `update_queue` runs if the list could change a value. */
  ghost function Finish(s: State, call: nat, proc: nat, ops: seq<Op>): State
    requires Ready(s) && CanTry(s, proc, ops)
  {
    var r := TryOps(s.books, proc, ops);
    var s' := if r == 0 then Act(s, Done(call, proc, ops)) else s;
    if r == 0 then DoKeepsBooksOk(s.books, Done(call, proc, ops)); Updated(Ret(s', call, r, false), ops)
    else Updated(Ret(s', call, r, false), ops)
  }

  ghost function Updated(s: State, ops: seq<Op>): State
    requires Ready(s)
  {
    if Alters(ops) then UpdateQueue(s, 0) else s
  }

  ghost function WithUndo(s: State, proc: nat, ops: seq<Op>): (r: State)
    requires Ready(s) && OpsFit(ops, |s.books.vals|)
    ensures Ready(r) && CanTry(r, proc, ops)
  {
    if UsesUndo(ops) && Find(s.books.undos, proc) < 0 then
      DoKeepsBooksOk(s.books, Alloced(proc));
      Act(s, Alloced(proc))
    else s
  }

  /** `sys_semop` up to its return or its first sleep. */
  ghost function SemopStep(s: State, proc: nat, ops: seq<Op>, slotEmpty: bool): State
    requires Ready(s)
  {
    var c := s.nextCall;
    var s0 := s.(nextCall := c + 1);
    if |ops| < 1 then Ret(s0, c, EINVAL, false)
    else if |ops| > SEMOPM then Ret(s0, c, E2BIG, false)
    else if !s.alive then Ret(s0, c, if slotEmpty then EINVAL else EIDRM, false)
    else if !OpsFit(ops, |s.books.vals|) then Ret(s0, c, EFBIG, false)
    else
      var s1 := WithUndo(s0, proc, ops);
      if TryOps(s1.books, proc, ops) <= 0 then Finish(s1, c, proc, ops)
      else
        var q := Sleeper(proc, c, ops, Alters(ops), Decreases(ops), EINTR);
        s1.(pending := if q.alter then s1.pending + [q] else [q] + s1.pending)
  }

  ghost function Drop(s: State, i: nat): State
    requires i < |s.pending|
  {
    s.(pending := RemoveAt(s.pending, i))
  }

  /** A queued sleeper runs again: told to retry it tries, otherwise it was interrupted. */
  ghost function WakeQueued(s: State, i: nat): State
    requires Ready(s) && i < |s.pending|
  {
    var q := s.pending[i];
    if q.status == 1 then
      if QueueTry(s, i) <= 0 then Finish(Drop(s, i), q.call, q.proc, q.ops)
      else s.(pending := s.pending[i := q.(status := EINTR)])
    else
      Updated(Ret(Drop(s, i), q.call, q.status, false), q.ops)
  }

  /** A released sleeper runs again: it returns its status, or EIDRM when its identifier slot is
      empty. */
  ghost function WakeReleased(s: State, i: nat, slotEmpty: bool): State
    requires i < |s.released|
  {
    var q := s.released[i];
    var s' := Unreleased(s, i);
    if !s.alive && slotEmpty then Ret(s', q.call, EIDRM, q.status == 0) else Ret(s', q.call, q.status, false)
  }

  function Failed(q: seq<Sleeper>): (r: seq<Sleeper>)
    ensures |r| == |q| && forall i :: 0 <= i < |q| ==> r[i] == q[i].(status := EIDRM)
  {
    seq(|q|, i requires 0 <= i < |q| => q[i].(status := EIDRM))
  }

  /** `freeary`: every queued sleeper is released with EIDRM. */
  ghost function Rmid(s: State): State {
    s.(alive := false, pending := [], released := s.released + Failed(s.pending))
  }

  datatype Event =
    | Semop(proc: nat, ops: seq<Op>, slotEmpty: bool)
    | Woken(i: nat)
    | ReleasedRuns(i: nat, slotEmpty: bool)
    | ValueSet(num: nat, val: int)
    | AllValuesSet(vals: seq<int>)
    | Removed
    | QueuedDies(i: nat)
    | ReleasedDies(i: nat)
    | ExitAdjusts(proc: nat)

  /** What can happen next. A process that calls or exits is not asleep; one that dies asleep
      is first taken out of the queue. */
  ghost predicate Enabled(s: State, e: Event) {
    match e
    case Semop(proc, ops, _) => forall i :: 0 <= i < |s.pending| ==> s.pending[i].proc != proc
    case Woken(i) => i < |s.pending|
    case ReleasedRuns(i, _) => i < |s.released|
    case ValueSet(num, val) => s.alive && num < |s.books.vals| && 0 <= val <= SEMVMX
    case AllValuesSet(vals) => s.alive && |vals| == |s.books.vals| && forall i :: 0 <= i < |vals| ==>
      0 <= vals[i] <= SEMVMX
    case Removed => s.alive
    case QueuedDies(i) => i < |s.pending|
    case ReleasedDies(i) => i < |s.released|
    case ExitAdjusts(proc) => s.alive && forall i :: 0 <= i < |s.pending| ==> s.pending[i].proc != proc
  }

  ghost function Changed(s: State, a: Action): State
    requires Ready(s) && Sensible(s.books, a)
    requires a.Exited? ==> forall i :: 0 <= i < |s.pending| ==> s.pending[i].proc != a.proc
  {
    DoKeepsBooksOk(s.books, a);
    UpdateQueue(Act(s, a), 0)
  }

  ghost function Next(s: State, e: Event): State
    requires Ready(s) && Enabled(s, e)
  {
    match e
    case Semop(proc, ops, slotEmpty) => SemopStep(s, proc, ops, slotEmpty)
    case Woken(i) => WakeQueued(s, i)
    case ReleasedRuns(i, slotEmpty) => WakeReleased(s, i, slotEmpty)
    case ValueSet(num, val) => Changed(s, ValSet(num, val))
    case AllValuesSet(vals) => Changed(s, AllSet(vals))
    case Removed => Rmid(s)
    case QueuedDies(i) => Drop(s, i)
    case ReleasedDies(i) => Unreleased(s, i)
    case ExitAdjusts(proc) => if Find(s.books.undos, proc) < 0 then s else Changed(s, Exited(proc))
  }

  // ---- every step keeps the invariant ----

  /** The books change and the log with them; no call is done. */
  lemma {:induction false} OtherActKeepsInv(init: Books, s: State, a: Action)
    requires Inv(init, s) && Sensible(s.books, a) && !a.Done?
    requires a.Exited? ==> forall i :: 0 <= i < |s.pending| ==> s.pending[i].proc != a.proc
    ensures Inv(init, Act(s, a))
  {
    ActKeepsReplay(init, s, a);
    DoKeepsBooksOk(s.books, a);
    forall c ensures Count(Act(s, a).log, c) == Count(s.log, c) { CountAppend(s.log, a, c); }
    assert Bag(Act(s, a)) == Bag(s);
  }

  /** A call that is nowhere returns an error without having been done. */
  lemma {:induction false} ErrorReturnKeepsInv(init: Books, s: State, call: nat, code: int)
    requires Inv(init, s) && call < s.nextCall && call !in Bag(s) && Count(s.log, call) == 0 && code < 0
    ensures Inv(init, Ret(s, call, code, false))
  {
    RetBag(s, call, code, false);
  }

  lemma {:induction false} RetBag(s: State, call: nat, code: int, late: bool)
    ensures Bag(Ret(s, call, code, late)) == Bag(s) + multiset{call}
  {
    assert Returns(s.returned + [Return(call, code, late)]) == Returns(s.returned) + [call];
  }

  lemma {:induction false} DoneReturnKeepsInv(init: Books, s: State, call: nat, proc: nat, ops: seq<Op>)
    requires Inv(init, s) && Ready(s) && call < s.nextCall && call !in Bag(s) && Count(s.log, call) == 0
    requires CanTry(s, proc, ops) && TryOps(s.books, proc, ops) == 0
    ensures Inv(init, Ret(Act(s, Done(call, proc, ops)), call, 0, false))
  {
    hide Recorded, Do, Bag, Count, TryOps;
    var a := Done(call, proc, ops);
    assert Sensible(s.books, a);
    DoneActOk(init, s, a);
    RetBag(Act(s, a), call, 0, false);
    NotInBag(s, call);
  }

  /** Doing a call changes its own count only. */
  lemma {:induction false} DoneActOk(init: Books, s: State, a: Action)
    requires Recorded(init, s.books, s.log) && Sensible(s.books, a)
    ensures Recorded(init, Act(s, a).books, Act(s, a).log) && |Act(s, a).books.vals| == |s.books.vals|
    ensures !a.Exited? ==> KeepsUndos(s.books, Act(s, a).books)
    ensures forall c :: Count(Act(s, a).log, c) == Count(s.log, c) + if a.Done? && c == a.call then 1 else 0
    ensures Bag(Act(s, a)) == Bag(s)
  {
    ActKeepsReplay(init, s, a);
    DoKeepsBooksOk(s.books, a);
    forall c ensures Count(Act(s, a).log, c) == Count(s.log, c) + if a.Done? && c == a.call then 1 else 0 {
      CountAppend(s.log, a, c);
    }
  }

  lemma {:induction false} NotInBag(s: State, call: nat)
    requires call !in Bag(s)
    ensures forall j :: 0 <= j < |s.pending| ==> s.pending[j].call != call
    ensures forall j :: 0 <= j < |s.released| ==> s.released[j].call != call
    ensures forall j :: 0 <= j < |s.returned| ==> s.returned[j].call != call
  {
    forall j | 0 <= j < |s.pending| ensures s.pending[j].call != call { assert Calls(s.pending)[j] in Bag(s); }
    forall j | 0 <= j < |s.released| ensures s.released[j].call != call { assert Calls(s.released)[j] in Bag(s); }
    forall j | 0 <= j < |s.returned| ensures s.returned[j].call != call { assert Returns(s.returned)[j] in Bag(s); }
  }

  lemma {:induction false} FinishKeepsInv(init: Books, s: State, call: nat, proc: nat, ops: seq<Op>)
    requires Inv(init, s) && Ready(s) && call < s.nextCall && call !in Bag(s) && Count(s.log, call) == 0
    requires CanTry(s, proc, ops) && TryOps(s.books, proc, ops) <= 0
    ensures Inv(init, Finish(s, call, proc, ops))
  {
    hide Inv;
    var r := TryOps(s.books, proc, ops);
    var t: State;
    if r == 0 {
      t := Ret(Act(s, Done(call, proc, ops)), call, 0, false);
      DoneReturnKeepsInv(init, s, call, proc, ops);
    } else {
      t := Ret(s, call, r, false);
      ErrorReturnKeepsInv(init, s, call, r);
    }
    InvIsReady(init, t);
    UpdateQueueKeepsInv(init, t, 0);
  }

  lemma {:induction false} DropKeepsInv(init: Books, s: State, i: nat)
    requires Inv(init, s) && i < |s.pending|
    ensures Inv(init, Drop(s, i)) && s.pending[i].call !in Bag(Drop(s, i))
  {
    hide Recorded, Bag;
    DropBag(s, i);
    PendingAfterRemove(s.pending, i);
  }

  lemma {:induction false} DropBag(s: State, i: nat)
    requires i < |s.pending| && Unique(s)
    ensures Unique(Drop(s, i)) && s.pending[i].call !in Bag(Drop(s, i))
  {
    BagSplit(s.pending, i);
    var d := Bag(Drop(s, i));
    assert Bag(s) == d + multiset{s.pending[i].call};
    forall c ensures d[c] <= 1 { assert Bag(s)[c] <= 1; }
    assert Bag(s)[s.pending[i].call] <= 1;
  }

  lemma {:induction false} UpdatedKeepsInv(init: Books, s: State, ops: seq<Op>)
    requires Inv(init, s) && Ready(s)
    ensures Inv(init, Updated(s, ops))
  {
    hide Inv;
    if Alters(ops) { UpdateQueueKeepsInv(init, s, 0); }
  }

  lemma {:induction false} NewCallKeepsInv(init: Books, s: State)
    requires Inv(init, s)
    ensures Inv(init, Counted(s)) && s.nextCall !in Bag(s) && Count(s.log, s.nextCall) == 0
  {
    hide Recorded;
    var t := Counted(s);
    assert Bag(t) == Bag(s);
    if s.nextCall in Bag(s) { InBag(s, s.nextCall); }
  }

  lemma {:induction false} InBag(s: State, c: nat)
    requires c in Bag(s)
    ensures (exists j :: 0 <= j < |s.pending| && s.pending[j].call == c)
      || (exists j :: 0 <= j < |s.released| && s.released[j].call == c)
      || (exists j :: 0 <= j < |s.returned| && s.returned[j].call == c)
  {
    if c in Calls(s.pending) {
      var j :| 0 <= j < |s.pending| && Calls(s.pending)[j] == c;
    } else if c in Calls(s.released) {
      var j :| 0 <= j < |s.released| && Calls(s.released)[j] == c;
    } else {
      var j :| 0 <= j < |s.returned| && Returns(s.returned)[j] == c;
    }
  }

  lemma {:induction false} SemopKeepsInv(init: Books, s: State, proc: nat, ops: seq<Op>, slotEmpty: bool)
    requires Inv(init, s) && Ready(s) && Enabled(s, Semop(proc, ops, slotEmpty))
    ensures Inv(init, SemopStep(s, proc, ops, slotEmpty))
  {
    hide Inv, Bag, Count, TryOps;
    var c := s.nextCall;
    var s0 := s.(nextCall := c + 1);
    NewCallKeepsInv(init, s);
    SameBag(s0, s);
    if |ops| < 1 { ErrorReturnKeepsInv(init, s0, c, EINVAL); }
    else if |ops| > SEMOPM { ErrorReturnKeepsInv(init, s0, c, E2BIG); }
    else if !s.alive { ErrorReturnKeepsInv(init, s0, c, if slotEmpty then EINVAL else EIDRM); }
    else if !OpsFit(ops, |s.books.vals|) { ErrorReturnKeepsInv(init, s0, c, EFBIG); }
    else {
      WithUndoKeepsInv(init, s0, proc, ops, c);
      var s1 := WithUndo(s0, proc, ops);
      if TryOps(s1.books, proc, ops) <= 0 {
        FinishKeepsInv(init, s1, c, proc, ops);
      } else {
        EnqueueKeepsInv(init, s1, Sleeper(proc, c, ops, Alters(ops), Decreases(ops), EINTR));
      }
    }
  }

  lemma {:induction false} SameBag(s: State, t: State)
    requires s.pending == t.pending && s.released == t.released && s.returned == t.returned
    ensures Bag(s) == Bag(t)
  {}

  lemma {:induction false} WithUndoKeepsInv(init: Books, s: State, proc: nat, ops: seq<Op>, c: nat)
    requires Inv(init, s) && Ready(s) && OpsFit(ops, |s.books.vals|) && c !in Bag(s) && Count(s.log, c) == 0
    ensures var r := WithUndo(s, proc, ops);
      Inv(init, r) && r.pending == s.pending && r.nextCall == s.nextCall && r.alive == s.alive && c !in Bag(r) &&
        Count(r.log, c) == 0
  {
    hide Inv;
    if UsesUndo(ops) && Find(s.books.undos, proc) < 0 {
      OtherActKeepsInv(init, s, Alloced(proc));
      CountAppend(s.log, Alloced(proc), c);
      SameBag(Act(s, Alloced(proc)), s);
    }
  }

  lemma {:induction false} EnqueueKeepsInv(init: Books, s: State, q: Sleeper)
    requires Inv(init, s) && s.alive && CanTry(s, q.proc, q.ops) && q.status == EINTR
    requires q.call < s.nextCall && q.call !in Bag(s) && Count(s.log, q.call) == 0
    requires forall i :: 0 <= i < |s.pending| ==> s.pending[i].proc != q.proc
    ensures Inv(init, Enqueued(s, q))
  {
    hide Recorded, Bag, Count;
    EnqueueBag(s, q);
    var r := Enqueued(s, q);
    forall i | 0 <= i < |r.pending|
      ensures PendingOk(r, r.pending[i]) && (r.pending[i] == q || r.pending[i] in s.pending)
    {
      if r.pending[i] != q { assert r.pending[i] == s.pending[if q.alter then i else i - 1]; }
    }
  }

  lemma {:induction false} EnqueueBag(s: State, q: Sleeper)
    requires Unique(s) && q.call !in Bag(s)
    ensures Unique(Enqueued(s, q))
  {
    hide Bag;
    EnqueueAdds(s, q);
    forall c ensures Bag(Enqueued(s, q))[c] <= 1 { assert Bag(s)[c] <= 1; }
  }

  lemma {:induction false} EnqueueAdds(s: State, q: Sleeper)
    ensures Bag(Enqueued(s, q)) == Bag(s) + multiset{q.call}
  {
    var c := Calls(Enqueued(s, q).pending);
    if q.alter { assert c == Calls(s.pending) + [q.call]; } else { assert c == [q.call] + Calls(s.pending); }
    assert multiset(c) == multiset(Calls(s.pending)) + multiset{q.call};
  }

  lemma {:induction false} WakeQueuedKeepsInv(init: Books, s: State, i: nat)
    requires Inv(init, s) && Ready(s) && i < |s.pending|
    ensures Inv(init, WakeQueued(s, i))
  {
    hide Inv, Bag, Count, TryOps;
    var q := s.pending[i];
    PendingFacts(init, s, i);
    DropKeepsInv(init, s, i);
    InvIsReady(init, Drop(s, i));
    if q.status == 1 {
      if QueueTry(s, i) <= 0 {
        FinishKeepsInv(init, Drop(s, i), q.call, q.proc, q.ops);
      } else {
        MarkKeepsInv(init, s, i, EINTR);
      }
    } else {
      ErrorReturnKeepsInv(init, Drop(s, i), q.call, q.status);
      InvIsReady(init, Ret(Drop(s, i), q.call, q.status, false));
      UpdatedKeepsInv(init, Ret(Drop(s, i), q.call, q.status, false), q.ops);
    }
  }

  lemma {:induction false} PendingFacts(init: Books, s: State, i: nat)
    requires Inv(init, s) && i < |s.pending|
    ensures PendingOk(s, s.pending[i])
  {}

  lemma {:induction false} ReleasedBag(s: State, i: nat)
    requires i < |s.released| && Unique(s)
    ensures var t := Unreleased(s, i); Unique(t) && Bag(s) == Bag(t) + multiset{s.released[i].call}
  {
    BagSplit(s.released, i);
    var t := Unreleased(s, i);
    assert Bag(s) == Bag(t) + multiset{s.released[i].call};
    forall c ensures Bag(t)[c] <= 1 { assert Bag(s)[c] <= 1; }
  }

  lemma {:induction false} ReleasedGoneKeepsInv(init: Books, s: State, i: nat)
    requires Inv(init, s) && i < |s.released|
    ensures Inv(init, Unreleased(s, i))
  {
    hide Recorded, Bag, Count;
    ReleasedBag(s, i);
    var r := RemoveAt(s.released, i);
    assert forall j :: 0 <= j < |r| ==> r[j] == s.released[if j < i then j else j + 1];
  }

  lemma {:induction false} WakeReleasedKeepsInv(init: Books, s: State, i: nat, slotEmpty: bool)
    requires Inv(init, s) && i < |s.released|
    ensures Inv(init, WakeReleased(s, i, slotEmpty))
  {
    hide Recorded, Bag, Count;
    ReleasedGoneKeepsInv(init, s, i);
    ReleasedBag(s, i);
    var q := s.released[i];
    var t := Unreleased(s, i);
    assert ReleasedOk(s, q);
    if !s.alive && slotEmpty { RetBag(t, q.call, EIDRM, q.status == 0); } else { RetBag(t, q.call, q.status, false); }
  }

  lemma {:induction false} RmidKeepsInv(init: Books, s: State)
    requires Inv(init, s)
    ensures Inv(init, Rmid(s))
  {
    hide Recorded, Count, Bag;
    var r := Rmid(s);
    RmidBag(s);
    forall i | 0 <= i < |r.released| ensures ReleasedOk(r, r.released[i]) {
      if i >= |s.released| { assert PendingOk(s, s.pending[i - |s.released|]); }
    }
  }

  lemma {:induction false} RmidBag(s: State)
    ensures Bag(Rmid(s)) == Bag(s)
  {
    assert Calls(Failed(s.pending)) == Calls(s.pending);
    assert Calls(s.released + Failed(s.pending)) == Calls(s.released) + Calls(s.pending);
    assert Calls([]) == [];
  }

  lemma {:induction false} ChangedKeepsInv(init: Books, s: State, a: Action)
    requires Inv(init, s) && Ready(s) && Sensible(s.books, a) && !a.Done?
    requires a.Exited? ==> forall i :: 0 <= i < |s.pending| ==> s.pending[i].proc != a.proc
    ensures Inv(init, Changed(s, a))
  {
    hide Inv;
    OtherActKeepsInv(init, s, a);
    InvIsReady(init, Act(s, a));
    UpdateQueueKeepsInv(init, Act(s, a), 0);
  }

  lemma {:induction false} NextKeepsInv(init: Books, s: State, e: Event)
    requires Inv(init, s) && Ready(s) && Enabled(s, e)
    ensures Inv(init, Next(s, e))
  {
    hide Inv, SemopStep, WakeQueued, WakeReleased, Changed, Rmid, Ready;
    match e
    case Semop(proc, ops, slotEmpty) => SemopKeepsInv(init, s, proc, ops, slotEmpty);
    case Woken(i) => WakeQueuedKeepsInv(init, s, i);
    case ReleasedRuns(i, slotEmpty) => WakeReleasedKeepsInv(init, s, i, slotEmpty);
    case ValueSet(num, val) => ChangedKeepsInv(init, s, ValSet(num, val));
    case AllValuesSet(vals) => ChangedKeepsInv(init, s, AllSet(vals));
    case Removed => RmidKeepsInv(init, s);
    case QueuedDies(i) => DropKeepsInv(init, s, i);
    case ReleasedDies(i) => ReleasedGoneKeepsInv(init, s, i);
    case ExitAdjusts(proc) =>
      if Find(s.books.undos, proc) >= 0 { ChangedKeepsInv(init, s, Exited(proc)); }
  }

  // ---- whole runs ----

  /** `newary`: all values are zero. */
  ghost function Initial(n: nat): State { State(true, Books(Zeros(n), []), [], [], [], [], 0) }

  ghost predicate IsRun(n: nat, states: seq<State>, events: seq<Event>) {
    && |states| == |events| + 1
    && states[0] == Initial(n)
    && forall i :: 0 <= i < |events| ==>
        Ready(states[i]) && Enabled(states[i], events[i]) && states[i + 1] == Next(states[i], events[i])
  }

  lemma {:induction false} RunKeepsInv(n: nat, states: seq<State>, events: seq<Event>, k: nat)
    requires IsRun(n, states, events) && k < |states|
    ensures Inv(Initial(n).books, states[k])
    decreases k
  {
    if k > 0 {
      hide Next;
      RunKeepsInv(n, states, events, k - 1);
      NextKeepsInv(Initial(n).books, states[k - 1], events[k - 1]);
    }
  }

  /** The values and adjustments are at all times those of the log, in which each successful
      call occurs once; no value is negative, no adjustment out of range. */
  lemma {:induction false} BooksAreTheLog(n: nat, states: seq<State>, events: seq<Event>, k: nat)
    requires IsRun(n, states, events) && k < |states|
    ensures states[k].books == Replay(Initial(n).books, states[k].log)
    ensures ValsOk(states[k].books.vals) && forall u :: u in states[k].books.undos ==> AdjOk(u.adj)
  {
    hide IsRun;
    RunKeepsInv(n, states, events, k);
  }

  /** Once the set is gone nobody is queued or told to retry on it, so nobody touches it. */
  lemma {:induction false} NobodyQueuedOnRemoved(n: nat, states: seq<State>, events: seq<Event>, k: nat)
    requires IsRun(n, states, events) && k < |states| && !states[k].alive
    ensures states[k].pending == [] && forall q :: q in states[k].released ==> q.status <= 0
  {
    hide IsRun;
    RunKeepsInv(n, states, events, k);
    forall q | q in states[k].released ensures q.status <= 0 {
      var i :| 0 <= i < |states[k].released| && states[k].released[i] == q;
      assert ReleasedOk(states[k], q);
    }
  }

  // ---- conservation over whole logs ----

  /** What an exit adds to a total by cutting a negative value off at zero. */
  function CutOff(b: Books, proc: nat, i: nat): int
    requires Shaped(b) && i < |b.vals|
  {
    var u := Find(b.undos, proc);
    if u >= 0 && b.vals[i] + b.undos[u].adj[i] < 0 then -(b.vals[i] + b.undos[u].adj[i]) else 0
  }

  /** The total of semaphore `i` as the log accounts for it: semops add what they do without
      SEM_UNDO, exits add only what they cut off, SETVAL and SETALL reset. */
  ghost function Ledger(init: Books, log: seq<Action>, i: nat): int
    requires BooksOk(init) && i < |init.vals|
  {
    if log == [] then Total(init, i)
    else
      var p, t := Replay(init, log[..|log| - 1]), Ledger(init, log[..|log| - 1], i);
      match log[|log| - 1]
      case Done(_, _, ops) => t + Permanent(ops, i, |ops|)
      case Alloced(_) => t
      case Exited(proc) => if Shaped(p) && i < |p.vals| then t + CutOff(p, proc, i) else t
      case ValSet(num, val) => if num == i then val else t
      case AllSet(vals) => if i < |vals| then vals[i] else t
  }

  lemma {:induction false} AllocConserves(b: Books, proc: nat, i: nat)
    requires Shaped(b) && i < |b.vals|
    ensures Shaped(Alloc(b, proc)) && Total(Alloc(b, proc), i) == Total(b, i)
  {
    assert Alloc(b, proc).undos[1..] == b.undos;
  }

  /** Undo conservation: value plus outstanding adjustments is what the ledger says. */
  lemma {:induction false} TotalIsLedger(init: Books, log: seq<Action>, i: nat)
    requires Sound(init, log) && BooksOk(init) && i < |init.vals|
    ensures var b := Replay(init, log); BooksOk(b) && |b.vals| == |init.vals| && Total(b, i) == Ledger(init, log, i)
  {
    if log != [] {
      var p, a := Replay(init, log[..|log| - 1]), log[|log| - 1];
      TotalIsLedger(init, log[..|log| - 1], i);
      DoKeepsBooksOk(p, a);
      match a
      case Done(_, proc, ops) => ApplyConserves(p, proc, ops, i);
      case Alloced(proc) => AllocConserves(p, proc, i);
      case Exited(proc) => ExitConserves(p, proc, i);
      case ValSet(num, val) => SetValResets(p, num, val, i);
      case AllSet(vals) => SetAllResets(p, vals, i);
    }
  }

  lemma {:induction false} ConservedOverRuns(n: nat, states: seq<State>, events: seq<Event>, k: nat, i: nat)
    requires IsRun(n, states, events) && k < |states| && i < n
    ensures Shaped(states[k].books) && i < |states[k].books.vals|
    ensures BooksOk(Initial(n).books) && Total(states[k].books, i) == Ledger(Initial(n).books, states[k].log, i)
  {
    hide IsRun;
    RunKeepsInv(n, states, events, k);
    TotalIsLedger(Initial(n).books, states[k].log, i);
  }
}
