/** The process number allocator (kernel/fork.c, get_pid). `lastPid` and `nextSafe` remember a scan
    of the task list, so that most forks need none. */
module Pids {

  const PID_MAX := 0x8000
  /** Where numbering restarts, above the daemons. */
  const RESTART := 300

  /** `id` stands for the address of the task structure. */
  datatype Task = Task(id: nat, pid: int, pgrp: int, tgid: int, session: int)

  /** The task that starts the machine; it is not on the list. */
  const SWAPPER := Task(0, 0, 0, 0, 0)

  /** The numbers that bar `n` for good: the scan remembers these. */
  predicate Bars(t: Task, n: int) { t.pid == n || t.pgrp == n || t.session == n }

  predicate Holds(t: Task, n: int) { Bars(t, n) || t.tgid == n }

  ghost predicate Barred(tasks: seq<Task>, n: int) { exists i :: 0 <= i < |tasks| && Bars(tasks[i], n) }

  ghost predicate Used(tasks: seq<Task>, n: int) { exists i :: 0 <= i < |tasks| && Holds(tasks[i], n) }

  predicate NumberInRange(n: int) { 0 <= n < PID_MAX }

  /** The number after `n`. */
  function Following(n: int): int { if NumberInRange(n + 1) then n + 1 else RESTART }

  /** `safe` is the least barred number above `last`, if that is below PID_MAX. */
  ghost predicate LeastBarred(tasks: seq<Task>, last: int, safe: int) {
    && last < safe <= PID_MAX
    && (safe == PID_MAX || Barred(tasks, safe))
    && forall n {:trigger Barred(tasks, n)} :: last < n < safe ==> !Barred(tasks, n)
  }

  /** Counting on from `first`, and from PID_MAX on at 300 again, comes by `n` before `last`. */
  predicate CountedBefore(first: int, last: int, n: int) {
    if first <= last then first <= n < last else first <= n < PID_MAX || RESTART <= n < last
  }

  /** `last` is the first unused number from `first` on. */
  ghost predicate FirstUnused(tasks: seq<Task>, first: int, last: int) {
    && NumberInRange(last) && !Used(tasks, last) && (first <= last || RESTART <= last)
    && forall n {:trigger Used(tasks, n)} :: CountedBefore(first, last, n) ==> Used(tasks, n)
  }

  /** Some number that counting from `first` comes by is unused. */
  ghost predicate SomeUnused(tasks: seq<Task>, first: int) {
    exists n :: NumberInRange(n) && (first <= n || RESTART <= n) && !Used(tasks, n)
  }

  /** What get_pid needs to come back: nothing on its short ways, else an unused number. */
  ghost predicate Answers(tasks: seq<Task>, last: int, safe: int, clonePid: bool) {
    clonePid || FastPath(last, safe) || SomeUnused(tasks, Following(last))
  }

  /** The remembered scan agrees with the task list. */
  ghost predicate CacheOk(tasks: seq<Task>, last: int, safe: int) {
    && NumberInRange(last) && last < safe <= PID_MAX
    && forall n {:trigger Barred(tasks, n)} :: last < n < safe ==> !Barred(tasks, n)
  }

  /** The two ways get_pid goes. */
  predicate FastPath(last: int, safe: int) { NumberInRange(last + 1) && last + 1 < safe }

  ghost predicate Allocated(tasks: seq<Task>, last: int, safe: int, last': int, safe': int) {
    if FastPath(last, safe) then last' == last + 1 && safe' == safe
    else FirstUnused(tasks, Following(last), last') && LeastBarred(tasks, last', safe')
  }

  // ---- the scan ----

  /** How far counting has to go from `n` to `free`. */
  function Distance(n: int, free: int): int { if n <= free then free - n else PID_MAX - n + free - RESTART }

  /** The tasks before `i` do not hold `last`, and `safe` is the least number they bar above it. */
  ghost predicate ScannedTo(tasks: seq<Task>, i: nat, last: int, safe: int)
    requires i <= |tasks|
  {
    && last < safe <= PID_MAX
    && (safe == PID_MAX || Barred(tasks, safe))
    && (forall j :: 0 <= j < i ==> !Holds(tasks[j], last))
    && (forall j, n :: 0 <= j < i && Bars(tasks[j], n) && last < n ==> safe <= n)
  }

  method LowerSafe(tasks: seq<Task>, i: nat, last: int, safe: int) returns (s: int)
    requires i < |tasks| && ScannedTo(tasks, i, last, safe) && !Holds(tasks[i], last)
    ensures ScannedTo(tasks, i + 1, last, s)
  {
    s := safe;
    var p := tasks[i];
    if p.pid > last && s > p.pid { s := p.pid; }
    if p.pgrp > last && s > p.pgrp { s := p.pgrp; }
    if p.session > last && s > p.session { s := p.session; }
    assert s != safe ==> Bars(tasks[i], s);
  }

  lemma {:induction false} ScanDone(tasks: seq<Task>, last: int, safe: int)
    requires ScannedTo(tasks, |tasks|, last, safe)
    ensures !Used(tasks, last) && LeastBarred(tasks, last, safe)
  {}

  /** The scan of the task list, which starts over with the next number at every collision. */
  method Scan(tasks: seq<Task>, first: int, ghost free: int) returns (last: int, safe: int)
    requires NumberInRange(first) && NumberInRange(free) && (first <= free || RESTART <= free) && !Used(tasks, free)
    ensures FirstUnused(tasks, first, last) && LeastBarred(tasks, last, safe)
  {
    last, safe := first, PID_MAX;
    var i := 0;
    while i < |tasks|
      invariant i <= |tasks| && NumberInRange(last) && (first <= last || RESTART <= last)
      invariant first > free ==> last >= first || last <= free
      invariant first <= free ==> first <= last <= free
      invariant ScannedTo(tasks, i, last, safe)
      invariant forall n {:trigger Used(tasks, n)} :: CountedBefore(first, last, n) ==> Used(tasks, n)
      decreases Distance(last, free), |tasks| - i
    {
      if Holds(tasks[i], last) {
        assert Used(tasks, last);
        last := last + 1;
        if last >= safe {
          if !NumberInRange(last) { last := RESTART; }
          safe := PID_MAX;
        }
        i := 0;
      } else {
        safe := LowerSafe(tasks, i, last, safe);
        i := i + 1;
      }
    }
    ScanDone(tasks, last, safe);
  }

  /** The scan has at most one answer. */
  lemma {:induction false} FirstUnusedOnce(tasks: seq<Task>, first: int, a: int, b: int)
    requires FirstUnused(tasks, first, a) && FirstUnused(tasks, first, b)
    ensures a == b
  {
    assert a != b ==> CountedBefore(first, a, b) || CountedBefore(first, b, a);
  }

  /** The scan has an answer exactly when some number is left for it. */
  lemma {:induction false} AnswerIffUnused(tasks: seq<Task>, first: int)
    requires NumberInRange(first)
    ensures (exists last :: FirstUnused(tasks, first, last)) <==> SomeUnused(tasks, first)
  {
    if SomeUnused(tasks, first) {
      var free :| NumberInRange(free) && (first <= free || RESTART <= free) && !Used(tasks, free);
      var last := Search(tasks, first, first, free);
    }
    if last :| FirstUnused(tasks, first, last) {
      assert !Used(tasks, last);
    }
  }

  lemma {:induction false} Search(tasks: seq<Task>, first: int, n: int, free: int) returns (last: int)
    requires NumberInRange(first) && NumberInRange(free) && !Used(tasks, free) && NumberInRange(n)
    requires first <= n || RESTART <= n
    requires if first <= free then first <= n <= free else RESTART <= free && (n >= first || n <= free)
    requires forall m {:trigger Used(tasks, m)} :: CountedBefore(first, n, m) ==> Used(tasks, m)
    ensures FirstUnused(tasks, first, last)
    decreases Distance(n, free)
  {
    if Used(tasks, n) {
      last := Search(tasks, first, Following(n), free);
    } else {
      last := n;
    }
  }

  /** A number just allocated is neither the number of a task, a group nor a session. It can be that of
      a thread group whose leader is gone, and is so exactly when the fast path comes by one. */
  lemma {:induction false} AllocatedIsNew(tasks: seq<Task>, last: int, safe: int, last': int, safe': int)
    requires CacheOk(tasks, last, safe) && Allocated(tasks, last, safe, last', safe')
    ensures CacheOk(tasks, last', safe') && !Barred(tasks, last')
    ensures Used(tasks, last') <==> FastPath(last, safe) && Used(tasks, last + 1)
  {
    BarredIsUsed(tasks, last');
    assert FastPath(last, safe) ==> last < last + 1 < safe;
  }

  /** The same, told by the numbers of the tasks. */
  lemma {:induction false} AllocatedMeans(tasks: seq<Task>, last: int, safe: int, pid: int, safe': int)
    requires NumberInRange(last) && Allocated(tasks, last, safe, pid, safe')
    ensures last + 1 < PID_MAX && last + 1 < safe ==> pid == last + 1
    ensures !(last + 1 < PID_MAX && last + 1 < safe) ==>
      var first := if last + 1 < PID_MAX then last + 1 else RESTART;
      && (forall t :: t in tasks ==> t.pid != pid && t.pgrp != pid && t.tgid != pid && t.session != pid)
      && (forall n {:trigger Used(tasks, n)} ::
            (if first <= pid then first <= n < pid else first <= n < PID_MAX || RESTART <= n < pid) ==> Used(tasks, n))
      && (forall t :: t in tasks ==>
            && (t.pid > pid ==> t.pid >= safe')
            && (t.pgrp > pid ==> t.pgrp >= safe')
            && (t.session > pid ==> t.session >= safe'))
    ensures CacheOk(tasks, last, safe) ==>
      forall t :: t in tasks ==> t.pid != pid && t.pgrp != pid && t.session != pid
  {
    if CacheOk(tasks, last, safe) {
      AllocatedIsNew(tasks, last, safe, pid, safe');
      forall t | t in tasks ensures t.pid != pid && t.pgrp != pid && t.session != pid { NotBarred(tasks, t, pid); }
    }
    if !FastPath(last, safe) {
      forall t | t in tasks ensures t.pid != pid && t.pgrp != pid && t.tgid != pid && t.session != pid {
        if Holds(t, pid) { UsedIn(tasks, t, pid); }
      }
      forall t | t in tasks
        ensures (t.pid > pid ==> t.pid >= safe') && (t.pgrp > pid ==> t.pgrp >= safe')
          && (t.session > pid ==> t.session >= safe')
      {
        BarredIn(tasks, t, t.pid);
        BarredIn(tasks, t, t.pgrp);
        BarredIn(tasks, t, t.session);
      }
    }
  }

  /** A number is used if it is the number, the group, the thread group or the session of a task. */
  lemma {:induction false} UsedIff(tasks: seq<Task>, n: int)
    ensures Used(tasks, n) <==>
      exists t :: t in tasks && (t.pid == n || t.pgrp == n || t.tgid == n || t.session == n)
  {
    if Used(tasks, n) {
      var i :| 0 <= i < |tasks| && Holds(tasks[i], n);
      assert tasks[i] in tasks;
    }
  }

  lemma {:induction false} UsedIn(tasks: seq<Task>, t: Task, n: int)
    requires t in tasks && Holds(t, n)
    ensures Used(tasks, n)
  {}

  lemma {:induction false} NotBarred(tasks: seq<Task>, t: Task, n: int)
    requires t in tasks && !Barred(tasks, n)
    ensures t.pid != n && t.pgrp != n && t.session != n
  {
    if Bars(t, n) { BarredIn(tasks, t, n); }
  }

  lemma {:induction false} BarredIsUsed(tasks: seq<Task>, n: int)
    ensures Barred(tasks, n) ==> Used(tasks, n)
  {
    if Barred(tasks, n) {
      var i :| 0 <= i < |tasks| && Bars(tasks[i], n);
      assert Holds(tasks[i], n);
    }
  }

  // ---- runs ----

  /** A child that has its number but is not on the task list yet: the fork of `parent` is open.
      `lap` is when the child got its number. */
  datatype Unborn = Unborn(task: Task, parent: nat, lap: nat)

  /** `laps` counts how often the numbering has restarted, `forks` how many children got a number. */
  datatype State =
    State(tasks: seq<Task>, last: int, safe: int, unborn: seq<Unborn>, laps: nat, forks: nat)

  /** A fork gets a number, then may sleep, and then links the child or fails. Meanwhile its caller
      neither forks again nor exits nor starts a session; others may put it in another group. */
  datatype Event =
    | ForkBegins(parent: Task, thread: bool, clonePid: bool)
    | ForkEnds(i: nat)
    | ForkFails(i: nat)
    | Exit(i: nat)
    | SetPgid(i: nat, pgid: int)
    | SetSid(i: nat)

  const BOOT := State([], 0, PID_MAX, [], 0, 0)

  /** No fork of the task is open. */
  ghost predicate Free(s: State, id: nat) { forall i :: 0 <= i < |s.unborn| ==> s.unborn[i].parent != id }

  /** The child: it has the group and session of its parent, and a thread its thread group too. */
  function Child(s: State, parent: Task, thread: bool, pid: int): Task {
    Task(s.forks + 1, pid, parent.pgrp, if thread then parent.tgid else pid, parent.session)
  }

  function Lap(s: State, last: int): nat { if last <= s.last then s.laps + 1 else s.laps }

  function CutOut<T>(q: seq<T>, i: nat): seq<T>
    requires i < |q|
  {
    q[..i] + q[i + 1..]
  }

  /** A child is on its way with number `pid`, which leaves the count and the cache as given. */
  function Begun(s: State, parent: Task, thread: bool, pid: int, last: int, safe: int, laps: nat): State {
    State(s.tasks, last, safe, s.unborn + [Unborn(Child(s, parent, thread, pid), parent.id, laps)], laps, s.forks + 1)
  }

  function Linked(s: State, i: nat): State
    requires i < |s.unborn|
  {
    s.(tasks := s.tasks + [s.unborn[i].task], unborn := CutOut(s.unborn, i))
  }

  ghost predicate Step(s: State, e: Event, t: State) {
    match e
    case ForkBegins(parent, thread, clonePid) =>
      && (parent in s.tasks || parent == SWAPPER) && Free(s, parent.id)
      && (clonePid ==> parent.pid == 0 && t == Begun(s, parent, thread, 0, s.last, s.safe, s.laps))
      && (!clonePid ==>
            && Allocated(s.tasks, s.last, s.safe, t.last, t.safe)
            && t == Begun(s, parent, thread, t.last, t.last, t.safe, Lap(s, t.last)))
    case ForkEnds(i) => i < |s.unborn| && t == Linked(s, i)
    case ForkFails(i) => i < |s.unborn| && t == s.(unborn := CutOut(s.unborn, i))
    case Exit(i) => i < |s.tasks| && Free(s, s.tasks[i].id) && t == s.(tasks := CutOut(s.tasks, i))
    case SetPgid(i, pgid) =>
      && i < |s.tasks| && (pgid == s.tasks[i].pid || exists j :: 0 <= j < |s.tasks| && s.tasks[j].pgrp == pgid)
      && t == s.(tasks := s.tasks[i := s.tasks[i].(pgrp := pgid)])
    case SetSid(i) =>
      && i < |s.tasks| && Free(s, s.tasks[i].id)
      && (forall j :: 0 <= j < |s.tasks| ==> s.tasks[j].pgrp != s.tasks[i].pid)
      && t == s.(tasks := s.tasks[i := s.tasks[i].(pgrp := s.tasks[i].pid, session := s.tasks[i].pid)])
  }

  ghost predicate Distinct(tasks: seq<Task>) {
    forall i, j :: 0 <= i < j < |tasks| && tasks[i].pid == tasks[j].pid ==> tasks[i].pid == 0
  }

  /** The remembered scan is right, and no two tasks but idle ones share their number. */
  ghost predicate Inv(s: State) {
    CacheOk(s.tasks, s.last, s.safe) && Distinct(s.tasks)
  }

  /** `n` is ahead of the count, where the remembered scan says that nothing is. */
  predicate InGap(s: State, n: int) { s.last < n < s.safe }

  /** The child can join the list: its numbers are not ahead of the count, and its own is not taken. */
  ghost predicate Lands(s: State, c: Task) {
    && !InGap(s, c.pid) && !InGap(s, c.pgrp) && !InGap(s, c.session)
    && (c.pid == 0 || forall j :: 0 <= j < |s.tasks| ==> s.tasks[j].pid != c.pid)
  }

  /** If the event links a child, the child lands. */
  ghost predicate EndsWell(s: State, e: Event) {
    e.ForkEnds? ==> e.i < |s.unborn| && Lands(s, s.unborn[e.i].task)
  }

  // ---- what each step does to the invariant ----

  /** Whatever the new list bars, the old one did, or it is not ahead. */
  lemma {:induction false} StillOk(tasks: seq<Task>, tasks': seq<Task>, last: int, safe: int)
    requires CacheOk(tasks, last, safe)
    requires forall n {:trigger Barred(tasks', n)} :: Barred(tasks', n) ==> !(last < n < safe) || Barred(tasks, n)
    ensures CacheOk(tasks', last, safe)
  {
    forall n | last < n < safe ensures !Barred(tasks', n) { assert !Barred(tasks, n); }
  }

  lemma {:induction false} BarredIn(tasks: seq<Task>, t: Task, n: int)
    requires t in tasks && Bars(t, n)
    ensures Barred(tasks, n)
  {}

  /** Linking a child keeps the invariant exactly if it lands. */
  lemma {:induction false} LinkKeepsIff(s: State, i: nat)
    requires Inv(s) && i < |s.unborn|
    ensures Inv(Linked(s, i)) <==> Lands(s, s.unborn[i].task)
  {
    var t, c := Linked(s, i), s.unborn[i].task;
    assert t.tasks[|s.tasks|] == c && forall j :: 0 <= j < |s.tasks| ==> t.tasks[j] == s.tasks[j];
    if Lands(s, c) {
      forall n | Barred(t.tasks, n) ensures !(s.last < n < s.safe) || Barred(s.tasks, n) {
        var j :| 0 <= j < |t.tasks| && Bars(t.tasks[j], n);
        if j < |s.tasks| { BarredIn(s.tasks, s.tasks[j], n); }
      }
      StillOk(s.tasks, t.tasks, s.last, s.safe);
    }
    if Inv(t) {
      BarredIn(t.tasks, c, c.pid);
      BarredIn(t.tasks, c, c.pgrp);
      BarredIn(t.tasks, c, c.session);
    }
  }

  lemma {:induction false} OtherStepBars(s: State, e: Event, t: State, n: int)
    requires !e.ForkEnds? && !e.ForkBegins? && Step(s, e, t) && Barred(t.tasks, n)
    ensures Barred(s.tasks, n)
  {
    hide Barred;
    var i := Barring(t.tasks, n);
    match e
    case ForkFails(k) => BarredIn(s.tasks, s.tasks[i], n);
    case Exit(k) => BarredIn(s.tasks, s.tasks[if i < k then i else i + 1], n);
    case SetSid(k) => BarredIn(s.tasks, s.tasks[i], n);
    case SetPgid(k, pgid) =>
      if i == k && n == pgid && pgid != s.tasks[k].pid {
        var j :| 0 <= j < |s.tasks| && s.tasks[j].pgrp == pgid;
        BarredIn(s.tasks, s.tasks[j], n);
      } else {
        BarredIn(s.tasks, s.tasks[i], n);
      }
  }

  lemma {:induction false} Barring(tasks: seq<Task>, n: int) returns (i: nat)
    requires Barred(tasks, n)
    ensures i < |tasks| && Bars(tasks[i], n)
  {
    i :| 0 <= i < |tasks| && Bars(tasks[i], n);
  }

  lemma {:induction false} OtherStepKeeps(s: State, e: Event, t: State)
    requires Inv(s) && !e.ForkEnds? && !e.ForkBegins? && Step(s, e, t)
    ensures Inv(t)
  {
    hide Barred;
    forall n | Barred(t.tasks, n) ensures Barred(s.tasks, n) { OtherStepBars(s, e, t, n); }
    StillOk(s.tasks, t.tasks, t.last, t.safe);
  }

  /** A step keeps the invariant exactly unless it links a child that does not land. */
  lemma {:induction false} StepKeepsIff(s: State, e: Event, t: State)
    requires Inv(s) && Step(s, e, t)
    ensures Inv(t) <==> EndsWell(s, e)
  {
    if e.ForkEnds? {
      LinkKeepsIff(s, e.i);
    } else if e.ForkBegins? {
      if !e.clonePid { AllocatedIsNew(s.tasks, s.last, s.safe, t.last, t.safe); }
    } else {
      OtherStepKeeps(s, e, t);
    }
  }

  ghost predicate IsRun(run: seq<State>, events: seq<Event>) {
    && |run| == |events| + 1
    && forall i :: 0 <= i < |events| ==> Step(run[i], events[i], run[i + 1])
  }

  /** Every child of the run lands when it is linked. */
  ghost predicate AllLand(run: seq<State>, events: seq<Event>)
    requires IsRun(run, events)
  {
    forall i :: 0 <= i < |events| ==> EndsWell(run[i], events[i])
  }

  lemma {:induction false} InvUpTo(run: seq<State>, events: seq<Event>, k: nat)
    requires IsRun(run, events) && run[0] == BOOT && k < |run| && AllLand(run, events)
    ensures Inv(run[k])
  {
    if k > 0 {
      InvUpTo(run, events, k - 1);
      StepKeepsIff(run[k - 1], events[k - 1], run[k]);
    }
  }

  /** Every state of a run from boot is right if and only if every child of the run lands. */
  lemma {:induction false} RunKeepsIff(run: seq<State>, events: seq<Event>)
    requires IsRun(run, events) && run[0] == BOOT
    ensures (forall k :: 0 <= k < |run| ==> Inv(run[k])) <==> AllLand(run, events)
  {
    if AllLand(run, events) {
      forall k | 0 <= k < |run| ensures Inv(run[k]) { InvUpTo(run, events, k); }
    }
    if forall k :: 0 <= k < |run| ==> Inv(run[k]) {
      forall i | 0 <= i < |events| ensures EndsWell(run[i], events[i]) {
        assert Inv(run[i]) && Inv(run[i + 1]);
        StepKeepsIff(run[i], events[i], run[i + 1]);
      }
    }
  }

  // ---- when children land ----

  ghost predicate Anchored(s: State, n: int) { n == 0 || Barred(s.tasks, n) }

  /** The numbering has not restarted since the child got its number, and its group still has members. */
  ghost predicate Timely(s: State, u: Unborn) { u.lap == s.laps && Anchored(s, u.task.pgrp) }

  /** If the event links a child, it does so in time. */
  ghost predicate InTime(s: State, e: Event) {
    e.ForkEnds? ==> e.i < |s.unborn| && Timely(s, s.unborn[e.i])
  }

  /** The task with the open fork is still there, in the session its child has. */
  ghost predicate HasParent(s: State, u: Unborn) {
    || (u.parent == SWAPPER.id && u.task.session == SWAPPER.session)
    || exists i :: 0 <= i < |s.tasks| && s.tasks[i].id == u.parent && s.tasks[i].session == u.task.session
  }

  /** A child numbered in this lap has a number behind the count that nobody else has. */
  ghost predicate UnbornOk(s: State) {
    (forall i :: 0 <= i < |s.unborn| ==> HasParent(s, s.unborn[i])) && NumbersOk(s)
  }

  ghost predicate NumbersOk(s: State) {
    && (forall i :: 0 <= i < |s.unborn| ==> s.unborn[i].lap <= s.laps)
    && (forall i :: 0 <= i < |s.unborn| && s.unborn[i].lap == s.laps ==> NumberOk(s, s.unborn[i].task.pid))
    && (forall i, j :: 0 <= i < j < |s.unborn| && s.unborn[i].lap == s.unborn[j].lap == s.laps ==>
      s.unborn[i].task.pid != s.unborn[j].task.pid || s.unborn[i].task.pid == 0)
  }

  ghost predicate NumberOk(s: State, p: int) {
    p == 0 || (p <= s.last && forall j :: 0 <= j < |s.tasks| ==> s.tasks[j].pid != p)
  }

  lemma {:induction false} TimelyLands(s: State, i: nat)
    requires Inv(s) && UnbornOk(s) && i < |s.unborn| && Timely(s, s.unborn[i])
    ensures Lands(s, s.unborn[i].task)
  {
    assert NumbersOk(s) && NumberOk(s, s.unborn[i].task.pid) && HasParent(s, s.unborn[i]);
    assert Anchored(s, s.unborn[i].task.session);
  }

  lemma {:induction false} StillHasParent(s: State, e: Event, t: State, u: Unborn)
    requires Step(s, e, t) && u in s.unborn && HasParent(s, u)
    ensures HasParent(t, u)
  {
    if i :| 0 <= i < |s.tasks| && s.tasks[i].id == u.parent && s.tasks[i].session == u.task.session {
      assert t.tasks[if e.Exit? && i > e.i then i - 1 else i].id == u.parent;
    }
  }

  lemma {:induction false} BeginKeepsNumbers(s: State, e: Event, t: State)
    requires Inv(s) && NumbersOk(s) && e.ForkBegins? && Step(s, e, t)
    ensures NumbersOk(t)
  {
    hide Free;
    if !e.clonePid {
      AllocatedIsNew(s.tasks, s.last, s.safe, t.last, t.safe);
      forall j | 0 <= j < |s.tasks| ensures s.tasks[j].pid != t.last {
        if s.tasks[j].pid == t.last { BarredIn(s.tasks, s.tasks[j], t.last); }
      }
    }
    forall i | 0 <= i < |s.unborn| && s.unborn[i].lap == t.laps ensures NumberOk(t, s.unborn[i].task.pid) {
      assert NumberOk(s, s.unborn[i].task.pid);
    }
  }

  lemma {:induction false} BeginKeepsUnborn(s: State, e: Event, t: State)
    requires Inv(s) && UnbornOk(s) && e.ForkBegins? && Step(s, e, t)
    ensures UnbornOk(t)
  {
    hide NumbersOk, Inv, Free, Allocated;
    BeginKeepsNumbers(s, e, t);
    forall i | 0 <= i < |s.unborn| ensures HasParent(t, s.unborn[i]) { StillHasParent(s, e, t, s.unborn[i]); }
  }

  lemma {:induction false} EndKeepsUnborn(s: State, i: nat)
    requires UnbornOk(s) && i < |s.unborn| && s.unborn[i].lap == s.laps
    ensures UnbornOk(Linked(s, i))
  {
    var t := Linked(s, i);
    assert forall j :: 0 <= j < |t.unborn| ==> t.unborn[j] == s.unborn[if j < i then j else j + 1];
    forall j | 0 <= j < |t.unborn| && t.unborn[j].lap == t.laps ensures NumberOk(t, t.unborn[j].task.pid) {
      assert NumberOk(s, s.unborn[if j < i then j else j + 1].task.pid);
    }
    forall j | 0 <= j < |t.unborn| ensures HasParent(t, t.unborn[j]) {
      StillHasParent(s, ForkEnds(i), t, s.unborn[if j < i then j else j + 1]);
    }
  }

  lemma {:induction false} OtherKeepsNumbers(s: State, e: Event, t: State)
    requires NumbersOk(s) && !e.ForkBegins? && !e.ForkEnds? && Step(s, e, t)
    ensures NumbersOk(t)
  {
    hide Free;
    assert e.ForkFails? ==> forall j :: 0 <= j < |t.unborn| ==> t.unborn[j] == s.unborn[if j < e.i then j else j + 1];
    forall i | 0 <= i < |t.unborn| && t.unborn[i].lap == t.laps ensures NumberOk(t, t.unborn[i].task.pid) {
      assert NumberOk(s, t.unborn[i].task.pid) by {
        assert t.unborn[i] == s.unborn[if e.ForkFails? && i >= e.i then i + 1 else i];
      }
      assert forall j :: 0 <= j < |t.tasks| ==> t.tasks[j].pid == s.tasks[if e.Exit? && j >= e.i then j + 1 else j].pid;
    }
  }

  lemma {:induction false} OtherKeepsUnborn(s: State, e: Event, t: State)
    requires UnbornOk(s) && !e.ForkBegins? && !e.ForkEnds? && Step(s, e, t)
    ensures UnbornOk(t)
  {
    hide NumbersOk, HasParent, Free;
    OtherKeepsNumbers(s, e, t);
    forall i | 0 <= i < |t.unborn| ensures HasParent(t, t.unborn[i]) {
      StillHasParent(s, e, t, s.unborn[if e.ForkFails? && i >= e.i then i + 1 else i]);
    }
  }

  lemma {:induction false} StepKeepsInv(s: State, e: Event, t: State)
    requires Inv(s) && UnbornOk(s) && Step(s, e, t) && InTime(s, e)
    ensures Inv(t) && UnbornOk(t)
  {
    hide UnbornOk, Inv;
    StepKeepsIff(s, e, t);
    if e.ForkEnds? {
      TimelyLands(s, e.i);
      EndKeepsUnborn(s, e.i);
    } else if e.ForkBegins? {
      BeginKeepsUnborn(s, e, t);
    } else {
      OtherKeepsUnborn(s, e, t);
    }
  }

  lemma {:induction false} BeginKeeps(s: State, e: Event, t: State)
    requires e.ForkBegins? && Step(s, e, t)
    ensures Inv(s) ==> Inv(t) && (!e.clonePid ==> !Barred(t.tasks, t.last))
    ensures Inv(s) && UnbornOk(s) ==> UnbornOk(t)
  {
    if Inv(s) {
      StepKeepsIff(s, e, t);
      if !e.clonePid { AllocatedIsNew(s.tasks, s.last, s.safe, t.last, t.safe); }
      if UnbornOk(s) { BeginKeepsUnborn(s, e, t); }
    }
  }

  lemma {:induction false} EndKeeps(s: State, i: nat, t: State)
    requires i < |s.unborn| && t == Linked(s, i)
    ensures Inv(s) ==> (Inv(t) <==> Lands(s, s.unborn[i].task))
    ensures Inv(s) && UnbornOk(s) && Timely(s, s.unborn[i]) ==> Inv(t) && UnbornOk(t)
  {
    hide Inv, UnbornOk, Lands;
    if Inv(s) {
      LinkKeepsIff(s, i);
      if UnbornOk(s) && Timely(s, s.unborn[i]) {
        TimelyLands(s, i);
        EndKeepsUnborn(s, i);
      }
    }
  }

  /** In every state of a run from boot in which children are linked in time, the remembered scan
      agrees with the task list and task numbers are distinct. */
  lemma {:induction false} RunKeepsInv(run: seq<State>, events: seq<Event>, k: nat)
    requires IsRun(run, events) && run[0] == BOOT && k < |run|
    requires forall i :: 0 <= i < k ==> InTime(run[i], events[i])
    ensures Inv(run[k]) && UnbornOk(run[k])
  {
    if k > 0 {
      RunKeepsInv(run, events, k - 1);
      StepKeepsInv(run[k - 1], events[k - 1], run[k]);
    }
  }

  // ---- runs in which things go wrong ----

  lemma {:induction false} OneMore(run: seq<State>, events: seq<Event>, e: Event, t: State)
    returns (run': seq<State>, events': seq<Event>)
    requires IsRun(run, events) && Step(run[|run| - 1], e, t)
    ensures IsRun(run', events') && run'[0] == run[0] && run'[|run'| - 1] == t
  {
    run', events' := run + [t], events + [e];
  }

  /** A fork without sleep in between. */
  lemma {:induction false} WholeFork(run: seq<State>, events: seq<Event>, s: State, parent: Task, thread: bool,
          last: int, safe: int)
    returns (run': seq<State>, events': seq<Event>)
    requires IsRun(run, events) && s == run[|run| - 1] && (parent in s.tasks || parent == SWAPPER)
    requires Free(s, parent.id) && Allocated(s.tasks, s.last, s.safe, last, safe)
    ensures IsRun(run', events') && run'[0] == run[0]
    ensures run'[|run'| - 1] ==
      State(s.tasks + [Child(s, parent, thread, last)], last, safe, s.unborn, Lap(s, last), s.forks + 1)
  {
    var begin, end := ForkBegins(parent, thread, false), ForkEnds(|s.unborn|);
    var t := Begun(s, parent, thread, last, last, safe, Lap(s, last));
    run', events' := OneMore(run, events, begin, t);
    assert CutOut(t.unborn, |s.unborn|) == s.unborn;
    run', events' := OneMore(run', events', end, Linked(t, |s.unborn|));
  }

  /** A task forks a child that exits at once. */
  lemma {:induction false} ForkAndExit(run: seq<State>, events: seq<Event>, s: State, parent: Task, last: int,
          safe: int)
    returns (run': seq<State>, events': seq<Event>)
    requires IsRun(run, events) && s == run[|run| - 1] && parent in s.tasks && Free(s, parent.id)
    requires Free(s, s.forks + 1) && Allocated(s.tasks, s.last, s.safe, last, safe)
    ensures IsRun(run', events') && run'[0] == run[0]
    ensures run'[|run'| - 1] == State(s.tasks, last, safe, s.unborn, Lap(s, last), s.forks + 1)
  {
    run', events' := WholeFork(run, events, s, parent, false, last, safe);
    var t := run'[|run'| - 1];
    assert CutOut(t.tasks, |s.tasks|) == s.tasks;
    run', events' := OneMore(run', events', Exit(|s.tasks|), t.(tasks := s.tasks));
  }

  /** Children of `parent` that exit at once use up the next `n` numbers. */
  lemma {:induction false} UseUp(run: seq<State>, events: seq<Event>, s: State, parent: Task, n: nat)
    returns (run': seq<State>, events': seq<Event>)
    requires IsRun(run, events) && s == run[|run| - 1] && parent in s.tasks && Free(s, parent.id)
    requires forall i :: 0 <= i < |s.unborn| ==> s.unborn[i].parent <= s.forks
    requires 0 <= s.last && s.last + n < s.safe <= PID_MAX
    ensures IsRun(run', events') && run'[0] == run[0]
    ensures run'[|run'| - 1] == State(s.tasks, s.last + n, s.safe, s.unborn, s.laps, s.forks + n)
    decreases n
  {
    if n == 0 {
      run', events' := run, events;
    } else {
      run', events' := UseUp(run, events, s, parent, n - 1);
      run', events' := ForkAndExit(run', events', run'[|run'| - 1], parent, s.last + n, s.safe);
    }
  }

  /** The first task. */
  const INIT := Task(1, 1, 0, 1, 0)

  lemma {:induction false} Started() returns (run: seq<State>, events: seq<Event>)
    ensures IsRun(run, events) && run[0] == BOOT
    ensures run[|run| - 1] == State([INIT], 1, PID_MAX, [], 0, 1)
  {
    run, events := WholeFork([BOOT], [], BOOT, SWAPPER, false, 1, PID_MAX);
    assert [] + [INIT] == [INIT];
  }

  lemma {:induction false} Restarted(b: Task)
    requires b == Task(401, 401, 0, 400, 0)
    ensures Allocated([INIT, b], PID_MAX - 1, PID_MAX, 300, 401)
  {
    assert Bars([INIT, b][1], 401);
  }

  /** A thread whose group leader has exited. */
  lemma {:induction false} ThreadLeft(b: Task) returns (run: seq<State>, events: seq<Event>)
    requires b == Task(401, 401, 0, 400, 0)
    ensures IsRun(run, events) && |run| > 0 && run[0] == BOOT
    ensures run[|run| - 1] == State([INIT, b], 401, PID_MAX, [], 0, 401)
  {
    hide IsRun;
    var a := Task(400, 400, 0, 400, 0);
    run, events := Started();
    run, events := UseUp(run, events, run[|run| - 1], INIT, 398);
    run, events := WholeFork(run, events, run[|run| - 1], INIT, false, 400, PID_MAX);
    assert [INIT] + [a] == [INIT, a];
    run, events := WholeFork(run, events, run[|run| - 1], a, true, 401, PID_MAX);
    assert [INIT, a] + [b] == [INIT, a, b];
    assert CutOut([INIT, a, b], 1) == [INIT, b];
    run, events := OneMore(run, events, Exit(1), State([INIT, b], 401, PID_MAX, [], 0, 401));
  }

  /** From boot, a fork can be given the number of a thread group that still has members: the scan
      looks at those numbers but does not remember them. */
  lemma {:induction false} GroupNumberGivenAway() returns (run: seq<State>, events: seq<Event>)
    ensures IsRun(run, events) && run[0] == BOOT
    ensures var s := run[|run| - 1];
      && |s.tasks| == 3 && s.tasks[1].tgid == s.tasks[2].pid && s.tasks[1].pid != s.tasks[2].pid
      && s.last == s.tasks[2].pid && s.unborn == []
  {
    hide IsRun, Step;
    var b := Task(401, 401, 0, 400, 0);
    run, events := ThreadLeft(b);
    run, events := UseUp(run, events, run[|run| - 1], INIT, PID_MAX - 402);
    Restarted(b);
    run, events := ForkAndExit(run, events, run[|run| - 1], INIT, 300, 401);
    run, events := UseUp(run, events, run[|run| - 1], INIT, 99);
    run, events := WholeFork(run, events, run[|run| - 1], INIT, false, 400, 401);
  }

  /** A task whose fork is open. */
  lemma {:induction false} OpenFork(two: Task) returns (run: seq<State>, events: seq<Event>, u: Unborn)
    requires two == Task(2, 2, 0, 2, 0)
    ensures IsRun(run, events) && |run| > 0 && run[0] == BOOT && u.task.pid == 400 && u.parent == 2
    ensures run[|run| - 1] == State([INIT, two], 400, PID_MAX, [u], 0, 400)
  {
    hide IsRun;
    run, events := Started();
    run, events := WholeFork(run, events, run[|run| - 1], INIT, false, 2, PID_MAX);
    assert [INIT] + [two] == [INIT, two];
    run, events := UseUp(run, events, run[|run| - 1], INIT, 397);
    var s := run[|run| - 1];
    u := Unborn(Child(s, two, false, 400), 2, 0);
    assert [] + [u] == [u];
    run, events := OneMore(run, events, ForkBegins(two, false, false), Begun(s, two, false, 400, 400, PID_MAX, 0));
  }

  lemma {:induction false} RestartedAtTwo(two: Task)
    requires two == Task(2, 2, 0, 2, 0)
    ensures Allocated([INIT, two], PID_MAX - 1, PID_MAX, 300, PID_MAX)
  {}

  /** From boot, two tasks can end up with one number: the fork of one task sleeps after it got a
      number, another task goes on forking until the numbering restarts and comes by that number. */
  lemma {:induction false} TwoTasksOneNumber() returns (run: seq<State>, events: seq<Event>)
    ensures IsRun(run, events) && run[0] == BOOT
    ensures var s := run[|run| - 1]; |s.tasks| == 4 && s.tasks[2].pid == s.tasks[3].pid == 400
  {
    hide IsRun;
    var two, u := Task(2, 2, 0, 2, 0), Unborn(INIT, 0, 0);
    run, events, u := OpenFork(two);
    run, events := UseUp(run, events, run[|run| - 1], INIT, PID_MAX - 401);
    RestartedAtTwo(two);
    run, events := ForkAndExit(run, events, run[|run| - 1], INIT, 300, PID_MAX);
    run, events := UseUp(run, events, run[|run| - 1], INIT, 99);
    run, events := WholeFork(run, events, run[|run| - 1], INIT, false, 400, PID_MAX);
    run, events := OneMore(run, events, ForkEnds(0), Linked(run[|run| - 1], 0));
  }

  // ---- the allocator ----

  class ProcessTable {
    var tasks: seq<Task>
    var lastPid: int
    var nextSafe: int
    var unborn: seq<Unborn>
    /** How often the numbering restarted: bookkeeping of the model only. */
    var laps: nat
    /** How many children got a number; it names them. */
    var forks: nat

    ghost function S(): State
      reads this
    {
      State(tasks, lastPid, nextSafe, unborn, laps, forks)
    }

    constructor ()
      ensures S() == BOOT && Inv(S()) && UnbornOk(S())
    {
      tasks, lastPid, nextSafe, unborn, laps, forks := [], 0, PID_MAX, [], 0, 0;
    }

    method GetPid(clonePid: bool, current: Task) returns (pid: int)
      requires NumberInRange(lastPid) && Answers(tasks, lastPid, nextSafe, clonePid)
      modifies this`lastPid, this`nextSafe
      ensures clonePid ==> pid == current.pid && S() == old(S())
      ensures !clonePid ==> pid == lastPid && Allocated(tasks, old(lastPid), old(nextSafe), lastPid, nextSafe)
      ensures !clonePid && old(lastPid) + 1 < PID_MAX && old(lastPid) + 1 < old(nextSafe) ==> pid == old(lastPid) + 1
      ensures !clonePid && !(old(lastPid) + 1 < PID_MAX && old(lastPid) + 1 < old(nextSafe)) ==>
        var first := if old(lastPid) + 1 < PID_MAX then old(lastPid) + 1 else RESTART;
        && (forall t :: t in tasks ==> t.pid != pid && t.pgrp != pid && t.tgid != pid && t.session != pid)
        && (forall n {:trigger Used(tasks, n)} ::
              (if first <= pid then first <= n < pid else first <= n < PID_MAX || RESTART <= n < pid) ==>
                Used(tasks, n))
        && (forall t :: t in tasks ==>
              && (t.pid > pid ==> t.pid >= nextSafe)
              && (t.pgrp > pid ==> t.pgrp >= nextSafe)
              && (t.session > pid ==> t.session >= nextSafe))
      ensures !clonePid && CacheOk(tasks, old(lastPid), old(nextSafe)) ==>
        forall t :: t in tasks ==> t.pid != pid && t.pgrp != pid && t.session != pid
    {
      if clonePid { return current.pid; }
      var last := lastPid + 1;
      if !NumberInRange(last) {
        ghost var free :| NumberInRange(free) && RESTART <= free && !Used(tasks, free);
        lastPid, nextSafe := Scan(tasks, RESTART, free);
      } else if last >= nextSafe {
        ghost var free :| NumberInRange(free) && (last <= free || RESTART <= free) && !Used(tasks, free);
        lastPid, nextSafe := Scan(tasks, last, free);
      } else {
        lastPid := last;
      }
      pid := lastPid;
      AllocatedMeans(tasks, old(lastPid), old(nextSafe), lastPid, nextSafe);
    }

    /** do_fork up to the child's number; sharing the parent's is refused to all but the idle task. */
    method ForkBegin(parent: Task, thread: bool, clonePid: bool) returns (pid: int, refused: bool)
      requires NumberInRange(lastPid) && Answers(tasks, lastPid, nextSafe, clonePid)
      requires (parent in tasks || parent == SWAPPER) && Free(S(), parent.id)
      modifies this
      ensures refused <==> clonePid && parent.pid != 0
      ensures if refused then S() == old(S()) else Step(old(S()), ForkBegins(parent, thread, clonePid), S())
      ensures !refused ==> unborn == old(unborn) + [Unborn(Child(old(S()), parent, thread, pid), parent.id, laps)]
      ensures !refused ==>
        var c := unborn[|old(unborn)|].task;
        && c.pid == pid && c.pgrp == parent.pgrp && c.session == parent.session
        && c.tgid == (if thread then parent.tgid else pid) && (clonePid ==> pid == 0)
        && tasks == old(tasks)
      ensures old(Inv(S())) ==> Inv(S()) && (!refused && !clonePid ==> !Barred(tasks, pid))
      ensures old(Inv(S()) && UnbornOk(S())) ==> UnbornOk(S())
    {
      if clonePid && parent.pid != 0 { return 0, true; }
      refused := false;
      ghost var s := S();
      var before := lastPid;
      pid := GetPid(clonePid, parent);
      if !clonePid && lastPid <= before { laps := laps + 1; }
      forks := forks + 1;
      var child := Task(forks, pid, parent.pgrp, if thread then parent.tgid else pid, parent.session);
      unborn := unborn + [Unborn(child, parent.id, laps)];
      BeginKeeps(s, ForkBegins(parent, thread, clonePid), S());
    }

    /** The end of do_fork, which puts the child on the list. */
    method ForkEnd(i: nat)
      requires i < |unborn|
      modifies this`tasks, this`unborn
      ensures Step(old(S()), ForkEnds(i), S())
      ensures tasks == old(tasks) + [old(unborn)[i].task] && lastPid == old(lastPid) && nextSafe == old(nextSafe)
      ensures old(Inv(S())) ==> (Inv(S()) <==> Lands(old(S()), old(unborn[i].task)))
      ensures old(Inv(S()) && UnbornOk(S())) && Timely(old(S()), old(unborn[i])) ==> Inv(S()) && UnbornOk(S())
    {
      ghost var s := S();
      tasks := tasks + [unborn[i].task];
      unborn := unborn[..i] + unborn[i + 1..];
      EndKeeps(s, i, S());
    }
  }
}
