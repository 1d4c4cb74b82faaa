/** When two listed tasks have one number (kernel/fork.c): stated by what happened in the run,
    without the remembered scan. */
module PidHistory {
  import opened Pids

  // ---- who has which number ----

  ghost predicate Listed(s: State, id: nat, n: int) {
    exists i :: 0 <= i < |s.tasks| && s.tasks[i].id == id && s.tasks[i].pid == n
  }

  ghost predicate OnItsWay(s: State, id: nat, n: int) {
    exists i :: 0 <= i < |s.unborn| && s.unborn[i].task.id == id && s.unborn[i].task.pid == n
  }

  ghost predicate Known(s: State, id: nat, n: int) { Listed(s, id, n) || OnItsWay(s, id, n) }

  /** Tasks are told apart by their ids, which were given out. */
  ghost predicate IdsOk(s: State) {
    && 0 <= s.last
    && (forall i :: 0 <= i < |s.tasks| ==> s.tasks[i].id <= s.forks)
    && (forall i :: 0 <= i < |s.unborn| ==> s.unborn[i].task.id <= s.forks)
    && (forall i, j :: 0 <= i < j < |s.tasks| ==> s.tasks[i].id != s.tasks[j].id)
    && (forall i, j :: 0 <= i < j < |s.unborn| ==> s.unborn[i].task.id != s.unborn[j].task.id)
    && (forall i, j :: 0 <= i < |s.tasks| && 0 <= j < |s.unborn| ==> s.tasks[i].id != s.unborn[j].task.id)
  }

  /** Where the tasks and children of the next state come from. */
  lemma {:induction false} Origins(s: State, e: Event, t: State)
    requires Step(s, e, t)
    ensures forall i :: 0 <= i < |t.tasks| ==>
      if e.ForkEnds? && i == |s.tasks| then e.i < |s.unborn| && t.tasks[i] == s.unborn[e.i].task
      else
        var j := if e.Exit? && i >= e.i then i + 1 else i;
        j < |s.tasks| && t.tasks[i].id == s.tasks[j].id && t.tasks[i].pid == s.tasks[j].pid
    ensures forall i :: 0 <= i < |t.unborn| ==>
      if e.ForkBegins? && i == |s.unborn| then
        t.unborn[i].task.id == t.forks && t.unborn[i].task.pid == if e.clonePid then 0 else t.last
      else
        var j := if (e.ForkEnds? || e.ForkFails?) && i >= e.i then i + 1 else i;
        j < |s.unborn| && t.unborn[i] == s.unborn[j]
    ensures t.forks == (if e.ForkBegins? then s.forks + 1 else s.forks) && (0 <= s.last ==> 0 <= t.last)
  {}

  lemma {:induction false} StepKeepsIds(s: State, e: Event, t: State)
    requires IdsOk(s) && Step(s, e, t)
    ensures IdsOk(t)
  {
    hide Step;
    Origins(s, e, t);
  }

  /** Whoever is known after a step was known before, with the same number, or is the new child. */
  lemma {:induction false} KnownBefore(s: State, e: Event, t: State, id: nat, n: int)
    requires Step(s, e, t) && Known(t, id, n)
    ensures Known(s, id, n) || (e.ForkBegins? && id == s.forks + 1 && n == if e.clonePid then 0 else t.last)
  {
    hide Step;
    Origins(s, e, t);
    if Listed(t, id, n) {
      var i :| 0 <= i < |t.tasks| && t.tasks[i].id == id && t.tasks[i].pid == n;
      if e.ForkEnds? && i == |s.tasks| {
        assert s.unborn[e.i].task.id == id;
      } else {
        assert s.tasks[if e.Exit? && i >= e.i then i + 1 else i].id == id;
      }
    } else {
      var i :| 0 <= i < |t.unborn| && t.unborn[i].task.id == id && t.unborn[i].task.pid == n;
      if !(e.ForkBegins? && i == |s.unborn|) {
        assert s.unborn[if (e.ForkEnds? || e.ForkFails?) && i >= e.i then i + 1 else i].task.id == id;
      }
    }
  }

  // ---- what happened in the run ----

  /** At step `j` child `id` got number `n`; the idle tasks share 0. */
  ghost predicate Got(run: seq<State>, events: seq<Event>, j: int, id: nat, n: int)
    requires IsRun(run, events)
  {
    && 0 <= j < |events| && events[j].ForkBegins?
    && id == run[j].forks + 1 && n == if events[j].clonePid then 0 else run[j + 1].last
  }

  /** At step `j` get_pid scanned the task list. */
  ghost predicate Scans(run: seq<State>, events: seq<Event>, j: int)
    requires IsRun(run, events)
  {
    0 <= j < |events| && events[j].ForkBegins? && !events[j].clonePid && !FastPath(run[j].last, run[j].safe)
  }

  /** Step `m` is the last scan up to step `j`. */
  ghost predicate LastScan(run: seq<State>, events: seq<Event>, m: int, j: int)
    requires IsRun(run, events)
  {
    m <= j && Scans(run, events, m) && forall i :: m < i <= j ==> !Scans(run, events, i)
  }

  lemma {:induction false} IdsAt(run: seq<State>, events: seq<Event>, k: nat)
    requires IsRun(run, events) && run[0] == BOOT && k < |run|
    ensures IdsOk(run[k])
  {
    if k > 0 {
      IdsAt(run, events, k - 1);
      StepKeepsIds(run[k - 1], events[k - 1], run[k]);
    }
  }

  lemma {:induction false} ForksGrow(run: seq<State>, events: seq<Event>, i: nat, j: nat)
    requires IsRun(run, events) && i <= j < |run|
    ensures run[i].forks <= run[j].forks
    ensures i < j && events[i].ForkBegins? ==> run[i].forks < run[j].forks
    decreases j
  {
    if i < j {
      ForksGrow(run, events, i, j - 1);
      Origins(run[j - 1], events[j - 1], run[j]);
    }
  }

  /** Everyone known got the number at some step. */
  lemma {:induction false} GotSometime(run: seq<State>, events: seq<Event>, k: nat, id: nat, n: int) returns (j: nat)
    requires IsRun(run, events) && run[0] == BOOT && k < |run| && Known(run[k], id, n)
    ensures j < k && Got(run, events, j, id, n)
  {
    KnownBefore(run[k - 1], events[k - 1], run[k], id, n);
    if Known(run[k - 1], id, n) {
      j := GotSometime(run, events, k - 1, id, n);
    } else {
      j := k - 1;
    }
  }

  lemma {:induction false} GotOnce(run: seq<State>, events: seq<Event>, i: nat, j: nat, id: nat, n: int, n': int)
    requires IsRun(run, events) && Got(run, events, i, id, n) && Got(run, events, j, id, n')
    ensures i == j && n == n'
  {
    if i < j { ForksGrow(run, events, i, j); }
    if j < i { ForksGrow(run, events, j, i); }
  }

  /** Whoever is known at the end was known ever since. */
  lemma {:induction false} KnownSince(run: seq<State>, events: seq<Event>, j: nat, k: nat, id: nat, n: int)
    requires IsRun(run, events) && j <= k < |run| && id <= run[j].forks && Known(run[k], id, n)
    ensures Known(run[j], id, n)
    decreases k
  {
    hide Known, Step;
    if j < k {
      ForksGrow(run, events, j, k - 1);
      KnownBefore(run[k - 1], events[k - 1], run[k], id, n);
      KnownSince(run, events, j, k - 1, id, n);
    }
  }

  // ---- numbers ahead of the count ----

  /** The child was on its way at the last scan up to step `j`. */
  ghost predicate Overlooked(run: seq<State>, events: seq<Event>, j: int, id: nat, n: int)
    requires IsRun(run, events)
  {
    exists m :: LastScan(run, events, m, j) && OnItsWay(run[m], id, n)
  }

  /** A number that is known, and ahead of the count, is one that the last scan overlooked. */
  lemma {:induction false} AheadIsOverlooked(run: seq<State>, events: seq<Event>, k: nat, id: nat, n: int)
    requires IsRun(run, events) && run[0] == BOOT && k < |run| && Known(run[k], id, n) && InGap(run[k], n)
    ensures Overlooked(run, events, k - 1, id, n)
  {
    var s, e, t := run[k - 1], events[k - 1], run[k];
    IdsAt(run, events, k);
    KnownBefore(s, e, t, id, n);
    if Scans(run, events, k - 1) {
      ScanOverlooks(s, e, t, id, n);
      assert LastScan(run, events, k - 1, k - 1);
    } else {
      assert InGap(s, n);
      AheadIsOverlooked(run, events, k - 1, id, n);
      StaysOverlooked(run, events, k - 1, id, n);
    }
  }

  /** A scan leaves no number ahead that a listed task has. */
  lemma {:induction false} ScanOverlooks(s: State, e: Event, t: State, id: nat, n: int)
    requires Step(s, e, t) && e.ForkBegins? && !e.clonePid && !FastPath(s.last, s.safe)
    requires Known(s, id, n) && (InGap(t, n) || n == t.last)
    ensures OnItsWay(s, id, n)
  {
    if i :| 0 <= i < |s.tasks| && s.tasks[i].id == id && s.tasks[i].pid == n {
      ListedBars(s.tasks, i);
    }
  }

  lemma {:induction false} ListedBars(tasks: seq<Task>, i: nat)
    requires i < |tasks|
    ensures Barred(tasks, tasks[i].pid) && Used(tasks, tasks[i].pid)
  {
    BarredIn(tasks, tasks[i], tasks[i].pid);
    BarredIsUsed(tasks, tasks[i].pid);
  }

  lemma {:induction false} StaysOverlooked(run: seq<State>, events: seq<Event>, j: nat, id: nat, n: int)
    requires IsRun(run, events) && Overlooked(run, events, j - 1, id, n) && !Scans(run, events, j)
    ensures Overlooked(run, events, j, id, n)
  {
    var m :| LastScan(run, events, m, j - 1) && OnItsWay(run[m], id, n);
    assert LastScan(run, events, m, j);
  }

  // ---- shared numbers ----

  /** Number `n` went to child `a`, and again to child `b` although `a` was still known: the last
      scan had come when `a` was on its way. */
  ghost predicate GivenTwice(run: seq<State>, events: seq<Event>, k: nat, a: nat, b: nat, n: int)
    requires IsRun(run, events)
  {
    exists i, j :: i < j < k && Got(run, events, i, a, n) && Got(run, events, j, b, n) &&
      Overlooked(run, events, j, a, n)
  }

  /** A number that somebody has is given out again only because the last scan overlooked it. */
  lemma {:induction false} AgainIsOverlooked(run: seq<State>, events: seq<Event>, j: nat, a: nat, b: nat, n: int)
    requires IsRun(run, events) && run[0] == BOOT && n != 0 && Got(run, events, j, b, n) && Known(run[j], a, n)
    ensures Overlooked(run, events, j, a, n)
  {
    if Scans(run, events, j) {
      ScanOverlooks(run[j], events[j], run[j + 1], a, n);
      assert LastScan(run, events, j, j);
    } else {
      AheadIsOverlooked(run, events, j, a, n);
      StaysOverlooked(run, events, j, a, n);
    }
  }

  /** Two listed tasks, `a` the older, share number `n` if and only if it was given out twice. */
  lemma {:induction false} SharedIff(run: seq<State>, events: seq<Event>, k: nat, a: nat, b: nat, n: int)
    requires IsRun(run, events) && run[0] == BOOT && k < |run| && a < b && n != 0
    requires exists p, q :: Listed(run[k], a, p) && Listed(run[k], b, q)
    ensures Listed(run[k], a, n) && Listed(run[k], b, n) <==> GivenTwice(run, events, k, a, b, n)
  {
    if Listed(run[k], a, n) && Listed(run[k], b, n) {
      var i := GotSometime(run, events, k, a, n);
      var j := GotSometime(run, events, k, b, n);
      if j <= i { ForksGrow(run, events, j, i); }
      Origins(run[i], events[i], run[i + 1]);
      ForksGrow(run, events, i + 1, j);
      KnownSince(run, events, j, k, a, n);
      AgainIsOverlooked(run, events, j, a, b, n);
    }
    if GivenTwice(run, events, k, a, b, n) {
      var p, q :| Listed(run[k], a, p) && Listed(run[k], b, q);
      var i, j :| i < j < k && Got(run, events, i, a, n) && Got(run, events, j, b, n) &&
        Overlooked(run, events, j, a, n);
      var i' := GotSometime(run, events, k, a, p);
      var j' := GotSometime(run, events, k, b, q);
      GotOnce(run, events, i, i', a, n, p);
      GotOnce(run, events, j, j', b, n, q);
    }
  }

  predicate BothListed(tasks: seq<Task>, x: int, y: int) { 0 <= x < |tasks| && 0 <= y < |tasks| }

  /** In every state of every run from boot: two listed tasks have one number, not being idle ones,
      if and only if some number was given out twice to tasks that are listed now. */
  lemma {:induction false} DistinctIff(run: seq<State>, events: seq<Event>, k: nat)
    requires IsRun(run, events) && run[0] == BOOT && k < |run|
    ensures !Distinct(run[k].tasks) <==>
      exists x, y, n :: n != 0 && BothListed(run[k].tasks, x, y) &&
        GivenTwice(run, events, k, run[k].tasks[x].id, run[k].tasks[y].id, n)
  {
    hide GivenTwice, Listed, IsRun, Got;
    var tasks := run[k].tasks;
    IdsAt(run, events, k);
    if x, y :| 0 <= x < y < |tasks| && tasks[x].pid == tasks[y].pid != 0 {
      SharedAt(run, events, k, x, y);
      assert BothListed(tasks, x, y) && BothListed(tasks, y, x);
    }
    forall x, y, n | n != 0 && BothListed(tasks, x, y) && GivenTwice(run, events, k, tasks[x].id, tasks[y].id, n)
      ensures !Distinct(tasks)
    {
      TwiceAt(run, events, k, x, y, n);
    }
  }

  lemma {:induction false} SharedAt(run: seq<State>, events: seq<Event>, k: nat, x: nat, y: nat)
    requires IsRun(run, events) && run[0] == BOOT && k < |run| && x < |run[k].tasks| && y < |run[k].tasks| && x != y
    requires run[k].tasks[x].pid == run[k].tasks[y].pid != 0
    ensures
      || GivenTwice(run, events, k, run[k].tasks[x].id, run[k].tasks[y].id, run[k].tasks[x].pid)
      || GivenTwice(run, events, k, run[k].tasks[y].id, run[k].tasks[x].id, run[k].tasks[x].pid)
  {
    hide GivenTwice, IsRun, Got;
    IdsAt(run, events, k);
    var a, b, n := run[k].tasks[x].id, run[k].tasks[y].id, run[k].tasks[x].pid;
    assert Listed(run[k], a, n) && Listed(run[k], b, n);
    if a < b {
      SharedIff(run, events, k, a, b, n);
    } else {
      SharedIff(run, events, k, b, a, n);
    }
  }

  lemma {:induction false} TwiceAt(run: seq<State>, events: seq<Event>, k: nat, x: nat, y: nat, n: int)
    requires IsRun(run, events) && run[0] == BOOT && k < |run| && x < |run[k].tasks| && y < |run[k].tasks| && n != 0
    requires GivenTwice(run, events, k, run[k].tasks[x].id, run[k].tasks[y].id, n)
    ensures x != y && run[k].tasks[x].pid == run[k].tasks[y].pid == n
  {
    hide GivenTwice, IsRun, Got;
    var a, b := run[k].tasks[x].id, run[k].tasks[y].id;
    TwiceOrdered(run, events, k, a, b, n);
    IdsAt(run, events, k);
    assert Listed(run[k], a, run[k].tasks[x].pid) && Listed(run[k], b, run[k].tasks[y].pid);
    SharedIff(run, events, k, a, b, n);
  }

  lemma {:induction false} TwiceOrdered(run: seq<State>, events: seq<Event>, k: nat, a: nat, b: nat, n: int)
    requires IsRun(run, events) && k < |run| && GivenTwice(run, events, k, a, b, n)
    ensures a < b
  {
    var i, j :| i < j < k && Got(run, events, i, a, n) && Got(run, events, j, b, n) && Overlooked(run, events, j, a, n);
    ForksGrow(run, events, i, j);
  }
}
