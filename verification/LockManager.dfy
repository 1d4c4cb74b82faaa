/** POSIX locks over whole runs (fs/locks.c): granting, sleeping, waking, interruption and
    close, with the deadlock detector that runs before every sleep. A critical section under
    the kernel lock is one step; a sleep is the boundary between two. */
module LockManager {
  import opened Lists
  import opened LockSpans
  import opened LockList
  import opened LockFile

  /** An entry of `blocked_list`: `task` sleeps until lock `blocker` of inode `ino`, owned by
      `holder`, goes away. */
  datatype Waiter = Waiter(task: Task, ino: int, req: Span, blocker: nat, holder: Task)

  // ---- the waits-for graph ----

  /** The task that `x` waits for, as the scan of `blocked_list` finds it. */
  function WaitsFor(blocked: seq<Waiter>, x: Task): Option<Task> {
    if blocked == [] then None
    else if blocked[0].task == x then Some(blocked[0].holder)
    else WaitsFor(blocked[1..], x)
  }

  ghost predicate Waiting(blocked: seq<Waiter>, x: Task) { exists i :: 0 <= i < |blocked| && blocked[i].task == x }

  /** Follow the waits-for edges `n` times. */
  ghost function Chain(blocked: seq<Waiter>, x: Task, n: nat): Option<Task>
    decreases n
  {
    if n == 0 then Some(x)
    else match WaitsFor(blocked, x) case None => None case Some(y) => Chain(blocked, y, n - 1)
  }

  ghost predicate Reaches(blocked: seq<Waiter>, x: Task, y: Task) { exists n: nat :: Chain(blocked, x, n) == Some(y) }

  /** No task waits for itself through any chain. */
  ghost predicate Acyclic(blocked: seq<Waiter>) {
    forall x, n: nat :: n > 0 ==> Chain(blocked, x, n) != Some(x)
  }

  ghost predicate OneEach(blocked: seq<Waiter>) {
    forall i, j :: 0 <= i < j < |blocked| ==> blocked[i].task != blocked[j].task
  }

  ghost predicate RankedBy(blocked: seq<Waiter>, rank: Task -> nat) {
    forall i :: 0 <= i < |blocked| ==> rank(blocked[i].holder) < rank(blocked[i].task)
  }

  ghost predicate Ranked(blocked: seq<Waiter>) { exists rank: Task -> nat :: RankedBy(blocked, rank) }

  lemma {:induction false} WaitsForEntry(blocked: seq<Waiter>, x: Task)
    ensures WaitsFor(blocked, x).None? ==> !Waiting(blocked, x)
    ensures WaitsFor(blocked, x).Some? ==>
      exists i :: 0 <= i < |blocked| && blocked[i].task == x && blocked[i].holder == WaitsFor(blocked, x).value
  {
    if blocked != [] && blocked[0].task != x {
      WaitsForEntry(blocked[1..], x);
      if WaitsFor(blocked, x).Some? {
        var i :| 0 <= i < |blocked[1..]| && blocked[1..][i].task == x &&
          blocked[1..][i].holder == WaitsFor(blocked, x).value;
        assert blocked[i + 1].task == x;
      }
    }
  }

  lemma {:induction false} RankFalls(blocked: seq<Waiter>, rank: Task -> nat, x: Task)
    requires RankedBy(blocked, rank) && WaitsFor(blocked, x).Some?
    ensures rank(WaitsFor(blocked, x).value) < rank(x)
  {
    WaitsForEntry(blocked, x);
  }

  lemma {:induction false} ChainFalls(blocked: seq<Waiter>, rank: Task -> nat, x: Task, n: nat)
    requires RankedBy(blocked, rank) && Chain(blocked, x, n).Some?
    ensures rank(Chain(blocked, x, n).value) + n <= rank(x)
    decreases n
  {
    if n > 0 {
      RankFalls(blocked, rank, x);
      ChainFalls(blocked, rank, WaitsFor(blocked, x).value, n - 1);
    }
  }

  lemma {:induction false} RankedIsAcyclic(blocked: seq<Waiter>)
    requires Ranked(blocked)
    ensures Acyclic(blocked)
  {
    var rank :| RankedBy(blocked, rank);
    forall x, n: nat | n > 0 ensures Chain(blocked, x, n) != Some(x) {
      if Chain(blocked, x, n).Some? { ChainFalls(blocked, rank, x, n); }
    }
  }

  /** One edge ahead of a reachable task keeps it reachable. */
  lemma {:induction false} ReachesStep(blocked: seq<Waiter>, x: Task, y: Task)
    ensures Reaches(blocked, x, y) <==>
      x == y || (WaitsFor(blocked, x).Some? && Reaches(blocked, WaitsFor(blocked, x).value, y))
  {
    if x == y { assert Chain(blocked, x, 0) == Some(y); }
    if Reaches(blocked, x, y) {
      var n: nat :| Chain(blocked, x, n) == Some(y);
      if n > 0 { assert Chain(blocked, WaitsFor(blocked, x).value, n - 1) == Some(y); }
    }
    if WaitsFor(blocked, x).Some? && Reaches(blocked, WaitsFor(blocked, x).value, y) {
      var n: nat :| Chain(blocked, WaitsFor(blocked, x).value, n) == Some(y);
      assert Chain(blocked, x, n + 1) == Some(y);
    }
  }

  /** Sleeping behind a task that does not wait for the sleeper closes no cycle. */
  lemma {:induction false} BlockKeepsRanked(blocked: seq<Waiter>, w: Waiter)
    requires Ranked(blocked) && OneEach(blocked) && !Waiting(blocked, w.task)
    requires !Reaches(blocked, w.holder, w.task)
    ensures Ranked([w] + blocked)
  {
    var rank :| RankedBy(blocked, rank);
    // Lift everything that leads to the sleeper above the task it now waits for.
    var lifted: Task -> nat := x => rank(x) + if Reaches(blocked, x, w.task) then rank(w.holder) + 1 else 0;
    var all := [w] + blocked;
    forall i | 0 <= i < |all| ensures lifted(all[i].holder) < lifted(all[i].task) {
      if i == 0 {
        ReachesStep(blocked, w.task, w.task);
      } else {
        var e := blocked[i - 1];
        UniqueEdge(blocked, i - 1);
        ReachesStep(blocked, e.task, w.task);
        assert rank(e.holder) < rank(e.task);
        assert e.task != w.task;
      }
    }
    assert RankedBy(all, lifted);
  }

  /** ... and behind one that does, it would: the detector refuses no request needlessly. */
  lemma {:induction false} BlockWouldCycle(blocked: seq<Waiter>, w: Waiter)
    requires Reaches(blocked, w.holder, w.task)
    ensures !Acyclic([w] + blocked)
  {
    var n: nat :| Chain(blocked, w.holder, n) == Some(w.task);
    var m := ChainWith(blocked, w, w.holder, n);
    assert WaitsFor([w] + blocked, w.task) == Some(w.holder);
    assert Chain([w] + blocked, w.task, m + 1) == Some(w.task);
  }

  lemma {:induction false} ChainWith(blocked: seq<Waiter>, w: Waiter, x: Task, n: nat) returns (m: nat)
    requires Chain(blocked, x, n) == Some(w.task)
    ensures Chain([w] + blocked, x, m) == Some(w.task)
    decreases n
  {
    if x == w.task {
      m := 0;
    } else {
      assert ([w] + blocked)[1..] == blocked;
      m := ChainWith(blocked, w, WaitsFor(blocked, x).value, n - 1);
      m := m + 1;
    }
  }

  lemma {:induction false} UniqueEdge(blocked: seq<Waiter>, i: nat)
    requires OneEach(blocked) && i < |blocked|
    ensures WaitsFor(blocked, blocked[i].task) == Some(blocked[i].holder)
  {
    WaitsForEntry(blocked, blocked[i].task);
    assert Waiting(blocked, blocked[i].task);
  }

  // ---- the system ----

  datatype State = State(files: map<int, seq<Lock>>, blocked: seq<Waiter>, nextId: nat) {
    function List(ino: int): seq<Lock> { if ino in files then files[ino] else [] }
  }

  /** The sleepers left when those on the locks `woken` of inode `ino` have been woken. */
  function StillAsleep(blocked: seq<Waiter>, ino: int, woken: set<nat>): seq<Waiter> {
    if blocked == [] then []
    else (if blocked[0].ino == ino && blocked[0].blocker in woken then []
      else [blocked[0]]) + StillAsleep(blocked[1..], ino, woken)
  }

  function WithoutTask(blocked: seq<Waiter>, t: Task): seq<Waiter> {
    if blocked == [] then []
    else (if blocked[0].task == t then [] else [blocked[0]]) + WithoutTask(blocked[1..], t)
  }

  /** The locks left when every lock of files structure `owner` is closed. */
  function WithoutOwner(list: seq<Lock>, owner: int): seq<Lock> {
    if list == [] then []
    else (if list[0].task.files == owner then [] else [list[0]]) + WithoutOwner(list[1..], owner)
  }

  function OwnerIds(list: seq<Lock>, owner: int): set<nat> {
    set i | 0 <= i < |list| && list[i].task.files == owner :: list[i].id
  }

  ghost predicate FileOk(s: State, ino: int) {
    var list := s.List(ino);
    WellFormed(list) && Exclusive(list) && forall i :: 0 <= i < |list| ==> list[i].id < s.nextId
  }

  /** A sleeper's blocker is alive, belongs to another task and still conflicts with the request. */
  ghost predicate WaiterOk(list: seq<Lock>, w: Waiter) {
    exists i :: 0 <= i < |list| && list[i].id == w.blocker && list[i].task == w.holder &&
      PosixConflict(w.task, w.req, list[i].task, list[i].span)
  }

  ghost predicate Inv(s: State) {
    && (forall ino :: FileOk(s, ino))
    && (forall i :: 0 <= i < |s.blocked| ==> WaiterOk(s.List(s.blocked[i].ino), s.blocked[i]))
    && OneEach(s.blocked)
    && Ranked(s.blocked)
  }

  datatype Event =
    | Granted(c: Change, ino: int)
    | Slept(w: Waiter)
    | Interrupted(task: Task)
    | Closed(ino: int, owner: int)
    | Refused

  /** The first lock in the way of the request. */
  ghost predicate FirstConflict(list: seq<Lock>, t: Task, req: Span, i: nat) {
    && i < |list| && PosixConflict(t, req, list[i].task, list[i].span)
    && forall j :: 0 <= j < i ==> !PosixConflict(t, req, list[j].task, list[j].span)
  }

  ghost predicate Step(s: State, e: Event, s': State) {
    match e
    case Granted(c, ino) =>
      && c.Applied() && c.before == s.List(ino) && c.n1 == s.nextId && c.n2 == s.nextId + 1
      && NoConflict(c.before, c.t, c.req) && !Waiting(s.blocked, c.t)
      && s' == State(s.files[ino := c.after], StillAsleep(s.blocked, ino, c.woken), s.nextId + 2)
    case Slept(w) =>
      && !Waiting(s.blocked, w.task)
      && (exists i: nat ::
            && FirstConflict(s.List(w.ino), w.task, w.req, i)
            && s.List(w.ino)[i].id == w.blocker && s.List(w.ino)[i].task == w.holder)
      && !Reaches(s.blocked, w.holder, w.task)
      && s' == s.(blocked := [w] + s.blocked)
    case Interrupted(t) => s' == s.(blocked := WithoutTask(s.blocked, t))
    case Closed(ino, owner) =>
      s' == State(s.files[ino := WithoutOwner(s.List(ino), owner)],
        StillAsleep(s.blocked, ino, OwnerIds(s.List(ino), owner)), s.nextId)
    case Refused => s' == s
  }

  /** A sublist of sleepers keeps what is known of the sleepers. */
  ghost predicate Thinned(old_: seq<Waiter>, new_: seq<Waiter>) {
    && (OneEach(old_) ==> OneEach(new_))
    && (forall i :: 0 <= i < |new_| ==> new_[i] in old_)
  }

  lemma {:induction false} ThinnedCons(w: Waiter, old_: seq<Waiter>, new_: seq<Waiter>, all: seq<Waiter>)
    requires all != [] && all[0] == w && all[1..] == old_ && Thinned(old_, new_)
    ensures Thinned(all, new_) && Thinned(all, [w] + new_)
  {
    if OneEach(all) {
      forall i, j | 0 <= i < j < |old_| ensures old_[i].task != old_[j].task {
        assert all[i + 1].task != all[j + 1].task;
      }
      forall i | 0 <= i < |new_| ensures new_[i].task != w.task {
        var k :| 0 <= k < |old_| && old_[k] == new_[i];
        assert all[0].task != all[k + 1].task;
      }
    }
    forall i | 0 <= i < |new_| ensures new_[i] in all { assert new_[i] in all[1..]; }
  }

  lemma {:induction false} StillAsleepThins(blocked: seq<Waiter>, ino: int, woken: set<nat>)
    ensures Thinned(blocked, StillAsleep(blocked, ino, woken))
    ensures forall w :: w in StillAsleep(blocked, ino, woken) <==> w in blocked && !(w.ino == ino && w.blocker in woken)
  {
    if blocked != [] {
      StillAsleepThins(blocked[1..], ino, woken);
      ThinnedCons(blocked[0], blocked[1..], StillAsleep(blocked[1..], ino, woken), blocked);
    }
  }

  lemma {:induction false} WithoutTaskThins(blocked: seq<Waiter>, t: Task)
    ensures Thinned(blocked, WithoutTask(blocked, t))
    ensures !Waiting(WithoutTask(blocked, t), t)
    ensures forall w :: w in WithoutTask(blocked, t) <==> w in blocked && w.task != t
  {
    if blocked != [] {
      WithoutTaskThins(blocked[1..], t);
      ThinnedCons(blocked[0], blocked[1..], WithoutTask(blocked[1..], t), blocked);
    }
  }

  lemma {:induction false} ThinnedKeepsRanked(old_: seq<Waiter>, new_: seq<Waiter>)
    requires Ranked(old_) && Thinned(old_, new_)
    ensures Ranked(new_)
  {
    var rank :| RankedBy(old_, rank);
    forall i | 0 <= i < |new_| ensures rank(new_[i].holder) < rank(new_[i].task) {
      var k :| 0 <= k < |old_| && old_[k] == new_[i];
    }
    assert RankedBy(new_, rank);
  }

  // ---- every step keeps the invariant ----

  lemma {:induction false} GrantedKeepsInv(s: State, c: Change, ino: int, s': State)
    requires Inv(s) && Step(s, Granted(c, ino), s')
    ensures Inv(s')
  {
    hide Change.Applied, Ranked, Exclusive;
    assert FileOk(s, ino);
    forall i | 0 <= i < |c.before| ensures Ids(c.before)[i] < s.nextId {}
    StaysWellFormed(c);
    StaysExclusive(c);
    assert FileOk(s', ino) by {
      forall i | 0 <= i < |c.after| ensures c.after[i].id < s'.nextId { assert Ids(c.after)[i] in Ids(c.after); }
    }
    forall o ensures FileOk(s', o) {
      if o != ino { assert FileOk(s, o); }
    }
    StillAsleepThins(s.blocked, ino, c.woken);
    ThinnedKeepsRanked(s.blocked, s'.blocked);
    forall i | 0 <= i < |s'.blocked| ensures WaiterOk(s'.List(s'.blocked[i].ino), s'.blocked[i]) {
      var w := s'.blocked[i];
      var k :| 0 <= k < |s.blocked| && s.blocked[k] == w;
      assert WaiterOk(s.List(w.ino), w);
      if w.ino == ino { WaiterSurvives(c, w); }
    }
  }

  /** A sleeper that was not woken still has a live, conflicting blocker. */
  lemma {:induction false} WaiterSurvives(c: Change, w: Waiter)
    requires c.Applied() && WaiterOk(c.before, w) && w.blocker !in c.woken
    ensures WaiterOk(c.after, w)
  {
    hide Change.Applied;
    var i :| 0 <= i < |c.before| && c.before[i].id == w.blocker && c.before[i].task == w.holder
      && PosixConflict(w.task, w.req, c.before[i].task, c.before[i].span);
    LockSurvives(c, i);
    var j :| 0 <= j < |c.after| && Grown(c.before[i], c.after[j]);
    assert PosixConflict(w.task, w.req, c.after[j].task, c.after[j].span);
  }

  lemma {:induction false} SleptKeepsInv(s: State, w: Waiter, s': State)
    requires Inv(s) && Step(s, Slept(w), s')
    ensures Inv(s')
  {
    hide Ranked, Reaches, Exclusive;
    BlockKeepsRanked(s.blocked, w);
    forall o ensures FileOk(s', o) { assert FileOk(s, o); }
    assert WaiterOk(s.List(w.ino), w);
    forall i | 0 <= i < |s'.blocked| ensures WaiterOk(s'.List(s'.blocked[i].ino), s'.blocked[i]) {
      if i > 0 { assert s'.blocked[i] == s.blocked[i - 1]; }
    }
    forall i, j | 0 <= i < j < |s'.blocked| ensures s'.blocked[i].task != s'.blocked[j].task {
      assert s'.blocked[j] == s.blocked[j - 1];
    }
  }

  lemma {:induction false} InterruptedKeepsInv(s: State, t: Task, s': State)
    requires Inv(s) && Step(s, Interrupted(t), s')
    ensures Inv(s')
  {
    hide Ranked, Exclusive;
    WithoutTaskThins(s.blocked, t);
    ThinnedKeepsRanked(s.blocked, s'.blocked);
    forall o ensures FileOk(s', o) { assert FileOk(s, o); }
    forall i | 0 <= i < |s'.blocked| ensures WaiterOk(s'.List(s'.blocked[i].ino), s'.blocked[i]) {
      var k :| 0 <= k < |s.blocked| && s.blocked[k] == s'.blocked[i];
    }
  }

  lemma {:induction false} WithoutOwnerKeeps(list: seq<Lock>, owner: int)
    ensures var r := WithoutOwner(list, owner);
      && (forall l :: l in r <==> l in list && l.task.files != owner)
      && (DistinctIds(list) ==> DistinctIds(r))
  {
    if list != [] {
      WithoutOwnerKeeps(list[1..], owner);
      var r := WithoutOwner(list[1..], owner);
      assert forall l :: l in list <==> l == list[0] || l in list[1..];
      if DistinctIds(list) {
        forall i, j | 0 <= i < j < |list[1..]| ensures list[1..][i].id != list[1..][j].id {
          assert list[i + 1].id != list[j + 1].id;
        }
        forall j | 0 <= j < |r| ensures r[j].id != list[0].id {
          var k :| 0 <= k < |list[1..]| && list[1..][k] == r[j];
          assert list[0].id != list[k + 1].id;
        }
      }
    }
  }

  lemma {:induction false} ClosedKeepsInv(s: State, ino: int, owner: int, s': State)
    requires Inv(s) && Step(s, Closed(ino, owner), s')
    ensures Inv(s')
  {
    hide Ranked, Exclusive, WellFormed, WaiterOk;
    var list, r := s.List(ino), WithoutOwner(s.List(ino), owner);
    assert FileOk(s, ino);
    WithoutOwnerKeeps(list, owner);
    ClosedFileOk(list, r, s.nextId);
    forall o ensures FileOk(s', o) { assert FileOk(s, o); }
    StillAsleepThins(s.blocked, ino, OwnerIds(list, owner));
    ThinnedKeepsRanked(s.blocked, s'.blocked);
    forall i | 0 <= i < |s'.blocked| ensures WaiterOk(s'.List(s'.blocked[i].ino), s'.blocked[i]) {
      var w := s'.blocked[i];
      var k :| 0 <= k < |s.blocked| && s.blocked[k] == w;
      if w.ino == ino { ClosedWaiterOk(list, owner, w); }
    }
  }

  lemma {:induction false} ClosedWaiterOk(list: seq<Lock>, owner: int, w: Waiter)
    requires WaiterOk(list, w) && w.blocker !in OwnerIds(list, owner)
    ensures WaiterOk(WithoutOwner(list, owner), w)
  {
    WithoutOwnerKeeps(list, owner);
    var r := WithoutOwner(list, owner);
    var m :| 0 <= m < |list| && list[m].id == w.blocker && list[m].task == w.holder &&
      PosixConflict(w.task, w.req, list[m].task, list[m].span);
    assert list[m] in r;
    var j :| 0 <= j < |r| && r[j] == list[m];
  }

  lemma {:induction false} ClosedFileOk(list: seq<Lock>, r: seq<Lock>, nextId: nat)
    requires WellFormed(list) && Exclusive(list) && forall i :: 0 <= i < |list| ==> list[i].id < nextId
    requires DistinctIds(list) ==> DistinctIds(r)
    requires forall l :: l in r ==> l in list
    ensures WellFormed(r) && Exclusive(r) && forall i :: 0 <= i < |r| ==> r[i].id < nextId
  {
    forall i | 0 <= i < |r| ensures r[i] in list {}
    forall i, j, x | 0 <= i < |r| && 0 <= j < |r| && r[i].task != r[j].task && r[i].span.Has(x) && r[j].span.Has(x)
      ensures r[i].span.typ == Read && r[j].span.typ == Read
    {
      var m :| 0 <= m < |list| && list[m] == r[i];
      var n :| 0 <= n < |list| && list[n] == r[j];
    }
  }

  lemma {:induction false} StepKeepsInv(s: State, e: Event, s': State)
    requires Inv(s) && Step(s, e, s')
    ensures Inv(s')
  {
    match e
    case Granted(c, ino) => GrantedKeepsInv(s, c, ino, s');
    case Slept(w) => SleptKeepsInv(s, w, s');
    case Interrupted(t) => InterruptedKeepsInv(s, t, s');
    case Closed(ino, owner) => ClosedKeepsInv(s, ino, owner, s');
    case Refused =>
  }

  // ---- whole runs ----

  const INITIAL := State(map[], [], 0)

  ghost predicate IsRun(states: seq<State>, events: seq<Event>) {
    && |states| == |events| + 1
    && states[0] == INITIAL
    && forall i :: 0 <= i < |events| ==> Step(states[i], events[i], states[i + 1])
  }

  /** In every reachable state owners exclude each other, the waits-for graph has no cycle, and
      every sleeper waits for a live lock that still conflicts with its request. */
  lemma {:induction false} RunKeepsInv(states: seq<State>, events: seq<Event>, n: nat)
    requires IsRun(states, events) && n < |states|
    ensures Inv(states[n]) && Acyclic(states[n].blocked)
    decreases n
  {
    hide Inv, Step, Ranked, Acyclic;
    if n == 0 {
      InitiallyInv();
    } else {
      RunKeepsInv(states, events, n - 1);
      StepKeepsInv(states[n - 1], events[n - 1], states[n]);
    }
    InvIsAcyclic(states[n]);
  }

  lemma {:induction false} InitiallyInv()
    ensures Inv(INITIAL)
  {
    assert RankedBy(INITIAL.blocked, _ => 0);
  }

  lemma {:induction false} InvIsAcyclic(s: State)
    requires Inv(s)
    ensures Acyclic(s.blocked)
  {
    RankedIsAcyclic(s.blocked);
  }

  ghost predicate AllCanonical(s: State) { forall ino :: CanonicalFile(s.List(ino)) }

  /** A granted request whose end offset wraps; a caller can tell before the call. */
  ghost predicate WrappingEvent(e: Event) { e.Granted? && Wraps(Of(e.c.before, e.c.t), e.c.req) }

  lemma {:induction false} ContiguousCons(x: Lock, rest: seq<Lock>, t: Task)
    ensures Contiguous([x] + rest, t) <==>
      && Contiguous(rest, t)
      && (x.task == t && rest != [] && rest[0].task != t ==> forall i :: 0 <= i < |rest| ==> rest[i].task != t)
  {
    var l := [x] + rest;
    if Contiguous(l, t) {
      forall i, j, k | 0 <= i < j < k < |rest| && rest[i].task == t && rest[k].task == t ensures rest[j].task == t {
        assert l[i + 1].task == t && l[k + 1].task == t && l[j + 1] == rest[j];
      }
      if x.task == t && rest != [] && rest[0].task != t {
        forall i | 0 <= i < |rest| ensures rest[i].task != t {
          assert l[0].task == t && l[1] == rest[0] && l[i + 1] == rest[i];
        }
      }
    }
  }

  lemma {:induction false} CloseKeepsOwner(list: seq<Lock>, owner: int, t: Task)
    ensures Of(WithoutOwner(list, owner), t) == if t.files == owner then [] else Of(list, t)
  {
    if list != [] {
      CloseKeepsOwner(list[1..], owner, t);
      var r := WithoutOwner(list[1..], owner);
      var h := if list[0].task.files == owner then [] else [list[0]];
      assert WithoutOwner(list, owner) == h + r;
      OfConcat(h, r, t);
    }
  }

  lemma {:induction false} CloseKeepsContiguous(list: seq<Lock>, owner: int, t: Task)
    requires Contiguous(list, t)
    ensures Contiguous(WithoutOwner(list, owner), t)
  {
    if list != [] {
      hide Contiguous;
      var rest := list[1..];
      assert list == [list[0]] + rest;
      ContiguousCons(list[0], rest, t);
      CloseKeepsContiguous(rest, owner, t);
      WithoutOwnerKeeps(rest, owner);
      var r := WithoutOwner(rest, owner);
      ContiguousCons(list[0], r, t);
      if list[0].task.files != owner {
        assert WithoutOwner(list, owner) == [list[0]] + r;
        if list[0].task == t && rest != [] { HeadsAgree(rest, owner, t); }
      } else {
        assert WithoutOwner(list, owner) == r;
      }
    }
  }

  lemma {:induction false} HeadsAgree(rest: seq<Lock>, owner: int, t: Task)
    requires rest != [] && t.files != owner
    requires rest[0].task != t ==> forall i :: 0 <= i < |rest| ==> rest[i].task != t
    ensures var r := WithoutOwner(rest, owner);
      if rest[0].task == t then r != [] && r[0].task == t else forall i :: 0 <= i < |r| ==> r[i].task != t
  {
    WithoutOwnerKeeps(rest, owner);
    var r := WithoutOwner(rest, owner);
    forall i | 0 <= i < |r| ensures r[i] in rest { assert r[i] in r; }
  }

  /** A step keeps the canonical form of every file exactly when it is not a wrapping grant. */
  lemma {:induction false} StepKeepsCanonical(s: State, e: Event, s': State)
    requires Step(s, e, s') && AllCanonical(s)
    ensures AllCanonical(s') <==> !WrappingEvent(e)
  {
    hide Change.Applied;
    match e
    case Granted(c, ino) =>
      CanonicalGrant(c);
      assert CanonicalFile(s.List(ino));
      assert s'.List(ino) == c.after;
      forall o | o != ino ensures CanonicalFile(s'.List(o)) { assert CanonicalFile(s.List(o)); }
    case Closed(ino, owner) =>
      forall o ensures CanonicalFile(s'.List(o)) {
        assert CanonicalFile(s.List(o));
        if o == ino {
          forall t ensures Contiguous(s'.List(o), t) && Canonical(Of(s'.List(o), t)) {
            CloseKeepsContiguous(s.List(o), owner, t);
            CloseKeepsOwner(s.List(o), owner, t);
          }
        }
      }
    case _ =>
      forall o ensures CanonicalFile(s'.List(o)) { assert CanonicalFile(s.List(o)); }
  }

  lemma {:induction false} CanonicalGrant(c: Change)
    requires c.Applied()
    ensures CanonicalFile(c.before) ==> (CanonicalFile(c.after) <==> !Wraps(Of(c.before, c.t), c.req))
  {
    if CanonicalFile(c.before) { CanonicalIffNoWrap(c); }
  }

  /** Every state of a run is canonical if and only if no grant in the run wraps. */
  lemma {:induction false} RunCanonicalIffNoWrap(states: seq<State>, events: seq<Event>)
    requires IsRun(states, events)
    ensures (forall i :: 0 <= i < |states| ==> AllCanonical(states[i])) <==>
      (forall i :: 0 <= i < |events| ==> !WrappingEvent(events[i]))
  {
    hide AllCanonical, Step, WrappingEvent;
    if forall i :: 0 <= i < |events| ==> !WrappingEvent(events[i]) {
      forall n | 0 <= n < |states| ensures AllCanonical(states[n]) { CanonicalUpTo(states, events, n); }
    }
    if forall i :: 0 <= i < |states| ==> AllCanonical(states[i]) {
      forall i | 0 <= i < |events| ensures !WrappingEvent(events[i]) {
        assert AllCanonical(states[i]) && AllCanonical(states[i + 1]);
        StepKeepsCanonical(states[i], events[i], states[i + 1]);
      }
    }
  }

  lemma {:induction false} InitiallyCanonical()
    ensures AllCanonical(INITIAL)
  {}

  lemma {:induction false} CanonicalUpTo(states: seq<State>, events: seq<Event>, n: nat)
    requires IsRun(states, events) && n < |states|
    requires forall i :: 0 <= i < |events| ==> !WrappingEvent(events[i])
    ensures AllCanonical(states[n])
    decreases n
  {
    hide AllCanonical, Step, WrappingEvent;
    if n == 0 {
      InitiallyCanonical();
    } else {
      CanonicalUpTo(states, events, n - 1);
      StepKeepsCanonical(states[n - 1], events[n - 1], states[n]);
    }
  }

  /** No entry of the list is backward; so it is as long as nothing wrapped. */
  ghost predicate Forward(list: seq<Lock>) {
    forall i :: 0 <= i < |list| ==> list[i].span.start <= list[i].span.end
  }

  /** Lock `i` is the first that the request cannot join. */
  ghost predicate FirstMisfit(list: seq<Lock>, t: Task, req: Span, i: nat) {
    i < |list| && Fits(list[..i], t, req) && !Fits(list[..i + 1], t, req)
  }

  lemma {:induction false} FirstConflictIff(s: State, ino: int, t: Task, req: Span, i: nat)
    requires FileOk(s, ino) && ValidRequest(req)
    ensures FirstConflict(s.List(ino), t, req, i) <==> FirstMisfit(s.List(ino), t, req, i)
  {
    hide Fits, Exclusive, WellFormed, PosixConflict;
    var list := s.List(ino);
    if i < |list| {
      PrefixOk(list, i);
      PrefixOk(list, i + 1);
      NoConflictIff(list[..i], t, req);
      NoConflictIff(list[..i + 1], t, req);
      if NoConflict(list[..i], t, req) {
        forall j | 0 <= j < i ensures !PosixConflict(t, req, list[j].task, list[j].span) {
          assert list[..i][j] == list[j];
        }
      }
      assert list[..i + 1][i] == list[i];
    }
  }

  lemma {:induction false} PrefixOk(list: seq<Lock>, i: nat)
    requires WellFormed(list) && Exclusive(list) && i <= |list|
    ensures WellFormed(list[..i]) && Exclusive(list[..i])
  {}

  lemma {:induction false} FitsFacts(s: State, ino: int, t: Task, req: Span)
    requires FileOk(s, ino) && ValidRequest(req)
    ensures NoConflict(s.List(ino), t, req) <==> Fits(s.List(ino), t, req)
    ensures req.typ == Unlock ==> Fits(s.List(ino), t, req)
    ensures req.typ != Unlock && Forward(s.List(ino)) ==>
      (Fits(s.List(ino), t, req) <==> Exclusive(s.List(ino) + [Lock(0, t, req)]))
  {
    hide Exclusive, PosixConflict, NoConflict;
    NoConflictIff(s.List(ino), t, req);
  }

  lemma {:induction false} OfHas(list: seq<Lock>, i: nat)
    requires i < |list|
    ensures list[i].span in Of(list, list[i].task)
  {
    if i > 0 {
      OfHas(list[1..], i - 1);
      assert list[1..][i - 1] == list[i];
    }
  }

  /** As long as nothing wrapped there are no backward entries. */
  lemma {:induction false} CanonicalIsForward(s: State, ino: int)
    requires AllCanonical(s)
    ensures Forward(s.List(ino))
  {
    assert CanonicalFile(s.List(ino));
    forall i | 0 <= i < |s.List(ino)| ensures s.List(ino)[i].span.start <= s.List(ino)[i].span.end {
      OfHas(s.List(ino), i);
      assert Canonical(Of(s.List(ino), s.List(ino)[i].task));
    }
  }

  /** There is at most one such lock, and none if the request fits. */
  lemma {:induction false} FirstOnce(s: State, ino: int, t: Task, req: Span)
    requires FileOk(s, ino) && ValidRequest(req)
    ensures forall i: nat, j: nat ::
      FirstMisfit(s.List(ino), t, req, i) && FirstMisfit(s.List(ino), t, req, j) ==> i == j
    ensures Fits(s.List(ino), t, req) ==> forall i: nat :: !FirstMisfit(s.List(ino), t, req, i)
  {
    hide Fits, Exclusive, WellFormed, PosixConflict, FirstMisfit;
    FitsFacts(s, ino, t, req);
    forall i: nat ensures FirstMisfit(s.List(ino), t, req, i) <==> FirstConflict(s.List(ino), t, req, i) {
      FirstConflictIff(s, ino, t, req, i);
    }
  }

  // ---- the calls ----

  datatype Outcome = Ok | Again | Deadlock | Asleep

  class LockTable {
    var files: map<int, seq<Lock>>
    var blocked: seq<Waiter>
    var nextId: nat

    ghost function St(): State
      reads this
    {
      State(files, blocked, nextId)
    }

    constructor ()
      ensures St() == INITIAL
    {
      files, blocked, nextId := map[], [], 0;
    }

    /** `posix_test_lock`: the first lock that the request cannot join, if any. It is none exactly
        when the same read or write request would be granted without waiting. */
    method TestLock(ino: int, t: Task, req: Span) returns (r: Option<Lock>)
      requires Inv(St()) && ValidRequest(req) && req.typ != Unlock
      ensures r.None? <==> Fits(St().List(ino), t, req)
      ensures Forward(St().List(ino)) ==>
        (r.None? <==> Exclusive(St().List(ino) + [Lock(0, t, req)]))
      ensures r.Some? ==> exists i: nat :: FirstMisfit(St().List(ino), t, req, i) && St().List(ino)[i] == r.value
    {
      hide Fits, Exclusive, Reaches, Ranked;
      var list := if ino in files then files[ino] else [];
      assert FileOk(St(), ino);
      var i := 0;
      while i < |list|
        invariant 0 <= i <= |list|
        invariant forall j :: 0 <= j < i ==> !PosixConflict(t, req, list[j].task, list[j].span)
      {
        // The source asks whether the request is in the way of the existing lock.
        if PosixConflict(list[i].task, list[i].span, t, req) {
          assert FirstConflict(list, t, req, i);
          FirstConflictIff(St(), ino, t, req, i);
          FitsFacts(St(), ino, t, req);
          return Some(list[i]);
        }
        i := i + 1;
      }
      FitsFacts(St(), ino, t, req);
      return None;
    }

    /** `posix_locks_deadlock`: follow the waits-for chain from the blocker's owner. It ends, and
        says yes exactly when that owner already waits, through any chain, for the caller. */
    method PosixLocksDeadlock(caller: Task, blocker: Task) returns (r: bool)
      requires Inv(St())
      ensures r <==> Reaches(blocked, blocker, caller)
    {
      ghost var rank :| RankedBy(blocked, rank);
      var cur := blocker;
      while true
        invariant Reaches(blocked, cur, caller) <==> Reaches(blocked, blocker, caller)
        decreases rank(cur)
      {
        ReachesStep(blocked, cur, caller);
        if cur == caller {
          return true;
        }
        var i := 0;
        while i < |blocked| && blocked[i].task != cur
          invariant 0 <= i <= |blocked|
          invariant forall j :: 0 <= j < i ==> blocked[j].task != cur
        {
          i := i + 1;
        }
        WaitsForEntry(blocked, cur);
        if i == |blocked| {
          return false;
        }
        UniqueEdge(blocked, i);
        RankFalls(blocked, rank, cur);
        cur := blocked[i].holder;
      }
    }

    /** The first loop of `posix_lock_file`: the first lock in the way. */
    method InTheWay(ino: int, t: Task, req: Span) returns (r: Option<nat>)
      requires FileOk(St(), ino) && ValidRequest(req)
      ensures r.None? <==> Fits(St().List(ino), t, req)
      ensures r.Some? ==> ino in files && FirstMisfit(St().List(ino), t, req, r.value)
    {
      hide Fits, Exclusive;
      var list := if ino in files then files[ino] else [];
      var i := 0;
      while i < |list| && !PosixConflict(t, req, list[i].task, list[i].span)
        invariant 0 <= i <= |list|
        invariant forall j :: 0 <= j < i ==> !PosixConflict(t, req, list[j].task, list[j].span)
      {
        i := i + 1;
      }
      FitsFacts(St(), ino, t, req);
      FirstConflictIff(St(), ino, t, req, i);
      return if i < |list| then Some(i) else None;
    }

    /** The apply phase, with the wake-ups. */
    method Grant(ino: int, t: Task, req: Span) returns (ghost e: Event)
      requires FileOk(St(), ino) && ValidRequest(req) && !Waiting(blocked, t)
      requires Fits(St().List(ino), t, req)
      modifies this
      ensures Step(old(St()), e, St()) && e.Granted? && e.ino == ino && e.c.t == t && e.c.req == req
      ensures forall w :: w in blocked <==> w in old(blocked) && !(w.ino == ino && w.blocker in e.c.woken)
    {
      hide NoConflict, Waiting, Exclusive, RunApplied, FirstRun, Fits;
      FitsFacts(St(), ino, t, req);
      var list := if ino in files then files[ino] else [];
      forall j | 0 <= j < |list| ensures Ids(list)[j] < nextId {}
      var after, woken;
      ghost var a, b, mid;
      after, woken, a, b, mid := ApplyLock(list, t, req, nextId, nextId + 1);
      e := Granted(Change(list, t, req, nextId, nextId + 1, after, woken, a, b, mid), ino);
      files, nextId := files[ino := after], nextId + 2;
      WakeUpBlocks(ino, woken);
    }

    /** One attempt of `posix_lock_file`: the conflict scan, then either the apply phase, an
        error or going to sleep. A woken sleeper comes back here. */
    method SetLock(ino: int, t: Task, req: Span, wait: bool) returns (o: Outcome, ghost e: Event)
      requires Inv(St()) && ValidRequest(req) && !Waiting(blocked, t)
      modifies this
      ensures Step(old(St()), e, St()) && Inv(St())
      ensures o == Ok <==> Fits(old(St()).List(ino), t, req)
      ensures req.typ == Unlock ==> o == Ok
      ensures req.typ != Unlock && Forward(old(St()).List(ino)) ==>
        (o == Ok <==> Exclusive(old(St()).List(ino) + [Lock(0, t, req)]))
      ensures o == Ok ==> e.Granted? && e.ino == ino && e.c.t == t && e.c.req == req
      ensures o == Again <==> !wait && !Fits(old(St()).List(ino), t, req)
      ensures o == Deadlock <==> wait && exists i: nat ::
        FirstMisfit(old(St()).List(ino), t, req, i) && Reaches(old(blocked), old(St()).List(ino)[i].task, t)
      ensures o == Again || o == Deadlock ==> e == Refused
      ensures o == Asleep ==> wait && e.Slept? && e.w.task == t && e.w.ino == ino && e.w.req == req
    {
      hide Fits, FileOk, Exclusive, Ranked, WaiterOk;
      assert FileOk(St(), ino);
      FitsFacts(St(), ino, t, req);
      FirstOnce(St(), ino, t, req);
      var i := InTheWay(ino, t, req);
      if i.Some? {
        FirstConflictIff(St(), ino, t, req, i.value);
        if !wait {
          return Again, Refused;
        }
        var w := Waiter(t, ino, req, files[ino][i.value].id, files[ino][i.value].task);
        var dead := PosixLocksDeadlock(t, w.holder);
        if dead {
          return Deadlock, Refused;
        }
        blocked := [w] + blocked;
        o, e := Asleep, Slept(w);
      } else {
        e := Grant(ino, t, req);
        o := Ok;
      }
      StepKeepsInv(old(St()), e, St());
    }

    /** `locks_wake_up_blocks` for each of the given locks: their sleepers leave the list. */
    method WakeUpBlocks(ino: int, woken: set<nat>)
      modifies this`blocked
      ensures blocked == StillAsleep(old(blocked), ino, woken)
      ensures forall w :: w in blocked <==> w in old(blocked) && !(w.ino == ino && w.blocker in woken)
    {
      StillAsleepThins(blocked, ino, woken);
      var rest, kept := blocked, [];
      while rest != []
        invariant kept + StillAsleep(rest, ino, woken) == StillAsleep(old(blocked), ino, woken)
      {
        var h := if rest[0].ino == ino && rest[0].blocker in woken then [] else [rest[0]];
        Assoc(kept, h, StillAsleep(rest[1..], ino, woken));
        kept, rest := kept + h, rest[1..];
      }
      blocked := kept;
    }

    /** `locks_delete_block` for the one entry of a task. */
    method DeleteBlock(t: Task)
      modifies this`blocked
      ensures blocked == WithoutTask(old(blocked), t)
      ensures forall w :: w in blocked <==> w in old(blocked) && w.task != t
    {
      WithoutTaskThins(blocked, t);
      var rest, kept := blocked, [];
      while rest != []
        invariant kept + WithoutTask(rest, t) == WithoutTask(old(blocked), t)
      {
        var h := if rest[0].task == t then [] else [rest[0]];
        Assoc(kept, h, WithoutTask(rest[1..], t));
        kept, rest := kept + h, rest[1..];
      }
      blocked := kept;
    }

    /** A signal ends the sleep of `t`. */
    method Interrupt(t: Task)
      requires Inv(St())
      modifies this
      ensures Step(old(St()), Interrupted(t), St()) && Inv(St()) && !Waiting(blocked, t)
      ensures files == old(files) && forall w :: w in blocked <==> w in old(blocked) && w.task != t
    {
      hide Inv;
      WithoutTaskThins(blocked, t);
      DeleteBlock(t);
      StepKeepsInv(old(St()), Interrupted(t), St());
    }

    /** `locks_remove_posix`: closing a file drops all locks of its owner and wakes their sleepers. */
    method RemovePosix(ino: int, owner: int)
      requires Inv(St())
      modifies this
      ensures Step(old(St()), Closed(ino, owner), St()) && Inv(St())
      ensures forall l :: l in St().List(ino) <==> l in old(St()).List(ino) && l.task.files != owner
      ensures forall o :: o != ino ==> St().List(o) == old(St()).List(o)
      ensures forall w :: w in blocked <==>
        && w in old(blocked)
        && !(w.ino == ino && exists l :: l in old(St()).List(ino) && l.task.files == owner && l.id == w.blocker)
    {
      hide Inv;
      var list := if ino in files then files[ino] else [];
      var kept, woken := CloseOwner(list, owner);
      files := files[ino := kept];
      WakeUpBlocks(ino, woken);
      StepKeepsInv(old(St()), Closed(ino, owner), St());
    }
  }

  /** The loop of `locks_remove_posix` over one list. */
  method CloseOwner(list: seq<Lock>, owner: int) returns (kept: seq<Lock>, woken: set<nat>)
    ensures kept == WithoutOwner(list, owner) && woken == OwnerIds(list, owner)
    ensures forall l :: l in kept <==> l in list && l.task.files != owner
    ensures forall n :: n in woken <==> exists l :: l in list && l.task.files == owner && l.id == n
  {
    WithoutOwnerKeeps(list, owner);
    var rest := list;
    kept, woken := [], {};
    while rest != []
      invariant kept + WithoutOwner(rest, owner) == WithoutOwner(list, owner)
      invariant woken + OwnerIds(rest, owner) == OwnerIds(list, owner)
    {
      OwnerIdsTail(rest, owner);
      var h := if rest[0].task.files == owner then [] else [rest[0]];
      Assoc(kept, h, WithoutOwner(rest[1..], owner));
      if rest[0].task.files == owner {
        woken := woken + {rest[0].id};
      }
      kept, rest := kept + h, rest[1..];
    }
    assert OwnerIds(rest, owner) == {};
  }

  lemma {:induction false} OwnerIdsTail(list: seq<Lock>, owner: int)
    requires list != []
    ensures OwnerIds(list, owner) == OwnerIds(list[1..], owner) + if list[0].task.files == owner then {list[0].id}
      else {}
  {
    forall n | n in OwnerIds(list, owner)
      ensures n in OwnerIds(list[1..], owner) || (list[0].task.files == owner && n == list[0].id)
    {
      var i :| 0 <= i < |list| && list[i].task.files == owner && n == list[i].id;
      if i > 0 { assert list[1..][i - 1] == list[i]; }
    }
    forall n | n in OwnerIds(list[1..], owner) ensures n in OwnerIds(list, owner) {
      var i :| 0 <= i < |list[1..]| && list[1..][i].task.files == owner && n == list[1..][i].id;
      assert list[i + 1].id == n;
    }
  }
}
