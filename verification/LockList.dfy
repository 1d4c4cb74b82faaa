/** The per-inode lock list `i_flock` and the apply phase of `posix_lock_file`
    (fs/locks.c). The linked list is a sequence, `before` is an index, and the pointers
    `caller`, `left` and `right` into the list are indices, -1 standing for "none". */
module LockList {
  import opened Lists
  import opened LockSpans
  import opened UnlockSpans

  /** A lock owner: `locks_same_owner` compares both fields. */
  datatype Task = Task(files: int, pid: int)

  /** A `file_lock`; `id` stands for its address. */
  datatype Lock = Lock(id: nat, task: Task, span: Span)

  function Spans(ls: seq<Lock>): (r: seq<Span>)
    ensures |r| == |ls|
    ensures forall i :: 0 <= i < |ls| ==> r[i] == ls[i].span
  {
    seq(|ls|, i requires 0 <= i < |ls| => ls[i].span)
  }

  ghost predicate DistinctIds(list: seq<Lock>) {
    forall i, j :: 0 <= i < j < |list| ==> list[i].id != list[j].id
  }

  /** Holds of every list the kernel can build, canonical or not. */
  ghost predicate WellFormed(list: seq<Lock>) {
    && DistinctIds(list)
    && forall i :: 0 <= i < |list| ==>
        list[i].span.typ != Unlock && 0 <= list[i].span.start <= OFFSET_MAX && list[i].span.end <= OFFSET_MAX
  }

  /** `list[a..b]` is the first run of entries of task `t`. */
  ghost predicate FirstRun(list: seq<Lock>, t: Task, a: nat, b: nat) {
    && a <= b <= |list|
    && (forall i :: 0 <= i < a ==> list[i].task != t)
    && (forall i :: a <= i < b ==> list[i].task == t)
    && (b < |list| ==> list[b].task != t)
    && (a == b ==> b == |list|)
  }

  /** Every byte of `s` was requested, or was already held with that type. */
  ghost predicate Covered(s: Span, req: Span, old_: seq<Lock>) {
    forall x :: s.Has(x) ==> (s.typ == req.typ && req.Has(x)) || HeldIn(old_, s.typ, x)
  }

  ghost predicate HeldIn(ls: seq<Lock>, typ: LockType, x: int) {
    exists m :: 0 <= m < |ls| && ls[m].span.typ == typ && ls[m].span.Has(x)
  }

  /** `n` is lock `l` after merging: same identity and type, at least its bytes. */
  predicate Grown(l: Lock, n: Lock) {
    n.id == l.id && n.task == l.task && n.span.typ == l.span.typ && n.span.start <= l.span.start &&
      l.span.end <= n.span.end
  }

  ghost predicate Survives(l: Lock, ls: seq<Lock>) {
    exists j :: 0 <= j < |ls| && Grown(l, ls[j])
  }

  /** What the apply phase does to the owner's run `g`, giving `mid` and waking the
      sleepers on the locks in `woken`. */
  ghost predicate RunApplied(g: seq<Lock>, t: Task, req: Span, n1: nat, n2: nat, mid: seq<Lock>, woken: set<nat>) {
    && (Canonical(Spans(g)) ==> Spans(mid) == Walk(Spans(g), req))
    && (req.typ == Unlock ==> Spans(mid) == Unlocked(Spans(g), req))
    && (forall j :: 0 <= j < |mid| ==> mid[j].task == t && Covered(mid[j].span, req, g))
    && (forall m :: 0 <= m < |g| ==> (g[m].id in woken <==> !Survives(g[m], mid)))
    && (forall n :: n in woken ==> n in Ids(g))
    && WellFormed(mid)
    && (forall j :: 0 <= j < |mid| ==> mid[j].id == n1 || mid[j].id == n2 || mid[j].id in Ids(g))
  }

  /** The local variables of the second loop. */
  datatype Cursor = Cursor(done: seq<Lock>, c: Span, at: int, added: bool, left: int, woken: set<nat>)

  /** Facts the loop keeps about any list. `done` is the processed part of the run, `g` the
      original run, `k` how much of it has been read and `org` where each entry of `done`
      comes from. Only the entry that `caller` points at can differ from its original. */
  ghost predicate Kept(g: seq<Lock>, t: Task, req: Span, u: Cursor, k: nat, org: seq<nat>) {
    && k <= |g|
    && |org| == |u.done|
    && (forall j :: 0 <= j < |org| ==> org[j] < k && u.done[j].id == g[org[j]].id && u.done[j].task == t)
    && (forall i, j :: 0 <= i < j < |org| ==> org[i] < org[j])
    && (forall j :: 0 <= j < |org| && j != u.at ==> u.done[j] == g[org[j]])
    && (forall m :: 0 <= m < k ==> g[m].id in u.woken || m in org)
    && -1 <= u.at < |org| && -1 <= u.left < |org|
    && (u.left >= 0 ==> u.done[u.left].span.end >= u.c.start)
    && (u.at >= 0 ==> u.added && u.at != u.left && u.done[u.at].span == u.c)
    && (u.at >= 0 && g[org[u.at]].id !in u.woken ==> Grown(g[org[u.at]], u.done[u.at]))
    && (u.added && req.typ != Unlock ==> u.at >= 0)
    && (req.typ == Unlock ==> u.at == -1 && (u.left >= 0 ==> u.added))
    && WokenOk(g, u, k, org)
    && u.c.typ == req.typ && ValidRequest(u.c)
    && u.c.start <= req.start && req.end <= u.c.end
    && Covered(u.c, req, g)
  }

  /** The locks woken so far are gone, or taken over by a request of another type. */
  ghost predicate WokenOk(g: seq<Lock>, u: Cursor, k: nat, org: seq<nat>)
    requires k <= |g| && -1 <= u.at < |org|
  {
    && (forall n :: n in u.woken ==> exists m :: 0 <= m < k && g[m].id == n)
    && (forall m :: 0 <= m < k && g[m].id in u.woken ==>
          m !in org || (u.at >= 0 && org[u.at] == m && g[m].span.typ != u.c.typ))
  }

  /** The processed part without the entry of `caller`, with `left` cut as it will be. */
  function Settled(u: Cursor): seq<Span>
    requires -1 <= u.at < |u.done| && -1 <= u.left < |u.done|
  {
    var s := Spans(u.done);
    var s := if u.left >= 0 then s[u.left := s[u.left].(end := u.c.start - 1)] else s;
    if u.at >= 0 then s[..u.at] else s
  }

  /** On a canonical run the loop computes `Walk`. */
  ghost predicate Walking(g: seq<Lock>, req: Span, u: Cursor, k: nat)
    requires k <= |g| && -1 <= u.at < |u.done| && -1 <= u.left < |u.done|
  {
    Canonical(Spans(g)) ==>
      && Settled(u) + Walk(Spans(g[k..]), u.c) == Walk(Spans(g), req)
      && (u.at >= 0 ==> u.at == |u.done| - 1)
      && (u.left >= 0 ==> u.left == (if u.at >= 0 then |u.done| - 2 else |u.done| - 1))
      && ((u.left >= 0 || u.added) && k < |g| ==> g[k].span.start >= u.c.start)
  }

  /** The processed part, with `left` cut unless a later lock will take its place. */
  function Pending(u: Cursor, later: bool): seq<Span>
    requires -1 <= u.left < |u.done|
  {
    var s := Spans(u.done);
    if u.left >= 0 && !later then s[u.left := s[u.left].(end := u.c.start - 1)] else s
  }

  /** On any run an unlock computes `Unlocked`. */
  ghost predicate Unlocking(g: seq<Lock>, req: Span, u: Cursor, k: nat)
    requires k <= |g| && -1 <= u.left < |u.done|
  {
    req.typ == Unlock ==>
      && u.c == req
      && Pending(u, CutsSome(Spans(g[k..]), req)) + Unlocked(Spans(g[k..]), req) == Unlocked(Spans(g), req)
  }

  ghost predicate LoopInvariant(g: seq<Lock>, t: Task, req: Span, u: Cursor, k: nat, org: seq<nat>) {
    Kept(g, t, req, u, k, org) && Walking(g, req, u, k) && Unlocking(g, req, u, k)
  }

  lemma {:induction false} SpansTail(g: seq<Lock>, k: nat)
    requires k < |g|
    ensures Spans(g[k..])[0] == g[k].span
    ensures Spans(g[k..])[1..] == Spans(g[k + 1..])
  {}

  lemma {:induction false} CanonicalNext(g: seq<Lock>, k: nat)
    requires k + 1 < |g| && Canonical(Spans(g))
    ensures g[k + 1].span.start > g[k].span.end && ValidSpan(g[k + 1].span)
  {
    assert Apart(Spans(g)[k], Spans(g)[k + 1]);
    assert ValidSpan(Spans(g)[k + 1]);
  }

  lemma {:induction false} CanonicalAt(g: seq<Lock>, k: nat)
    requires k < |g| && Canonical(Spans(g))
    ensures ValidSpan(g[k].span)
  {
    assert ValidSpan(Spans(g)[k]);
  }

  // ---- one lemma per branch of the loop ----

  ghost predicate BranchPre(g: seq<Lock>, t: Task, req: Span, u: Cursor, k: nat, org: seq<nat>) {
    LoopInvariant(g, t, req, u, k, org) && k < |g| && WellFormed(g) && forall i :: 0 <= i < |g| ==> g[i].task == t
  }

  /** An unchanged lock joins the processed part. */
  lemma {:induction false} KeptPush(g: seq<Lock>, t: Task, req: Span, u: Cursor, k: nat, org: seq<nat>, v: Cursor)
    requires Kept(g, t, req, u, k, org) && k < |g| && g[k].task == t && DistinctIds(g)
    requires v == u.(done := u.done + [g[k]], added := v.added, left := v.left)
    requires v.added == u.added || (v.added && req.typ == Unlock)
    requires req.typ == Unlock && v.left >= 0 ==> v.added
    requires v.left == u.left || (v.left == |u.done| && g[k].span.end >= u.c.start)
    ensures Kept(g, t, req, v, k + 1, org + [k])
  {
    hide WokenOk, Covered;
    assert forall m :: m in org ==> m in org + [k];
    assert k in org + [k];
    WokenPush(g, u, k, org, v);
  }

  lemma {:induction false} WokenPush(g: seq<Lock>, u: Cursor, k: nat, org: seq<nat>, v: Cursor)
    requires k < |g| && -1 <= u.at < |org| && WokenOk(g, u, k, org) && DistinctIds(g)
    requires v.woken == u.woken && v.c.typ == u.c.typ && v.at == u.at
    ensures WokenOk(g, v, k + 1, org + [k])
  {
    assert g[k].id !in u.woken;
    forall m | 0 <= m < k + 1 && g[m].id in v.woken
      ensures m !in org + [k] || (v.at >= 0 && (org + [k])[v.at] == m && g[m].span.typ != v.c.typ)
    {
      if m in org + [k] { assert m in org || m == k; }
    }
  }

  lemma {:induction false} WokenCaller(g: seq<Lock>, u: Cursor, k: nat, org: seq<nat>, v: Cursor)
    requires k < |g| && u.at == -1 && WokenOk(g, u, k, org) && DistinctIds(g)
    requires v.woken == u.woken || (v.woken == u.woken + {g[k].id} && g[k].span.typ != v.c.typ)
    requires v.at == |org|
    ensures WokenOk(g, v, k + 1, org + [k])
  {
    assert g[k].id !in u.woken;
    forall m | 0 <= m < k + 1 && g[m].id in v.woken
      ensures m !in org + [k] || (v.at >= 0 && (org + [k])[v.at] == m && g[m].span.typ != v.c.typ)
    {
      if m in org + [k] { assert m in org || m == k; }
    }
  }

  lemma {:induction false} WokenDrop(g: seq<Lock>, u: Cursor, k: nat, org: seq<nat>, v: Cursor)
    requires k < |g| && -1 <= u.at < |org| && WokenOk(g, u, k, org) && DistinctIds(g)
    requires forall j :: 0 <= j < |org| ==> org[j] < k
    requires v.woken == u.woken + {g[k].id} && v.c.typ == u.c.typ && v.at == u.at
    ensures WokenOk(g, v, k + 1, org)
  {
    assert k !in org;
    assert forall m :: 0 <= m < k ==> g[m].id != g[k].id;
  }

  /** A lock joins the processed part as the new `caller`. */
  lemma {:induction false} KeptCaller(g: seq<Lock>, t: Task, req: Span, u: Cursor, k: nat, org: seq<nat>, v: Cursor)
    requires Kept(g, t, req, u, k, org) && k < |g| && g[k].task == t && u.at < 0 && req.typ != Unlock
    requires v == u.(done := u.done + [g[k].(span := v.c)], c := v.c, at := |u.done|, added := true, woken := v.woken)
    requires ValidRequest(v.c) && v.c.typ == req.typ && v.c.start <= req.start && req.end <= v.c.end
    requires v.c.start <= u.c.start && Covered(v.c, req, g)
    requires DistinctIds(g)
    requires
      || (v.woken == u.woken + {g[k].id} && g[k].span.typ != v.c.typ)
      || (v.woken == u.woken && g[k].span.typ == v.c.typ && v.c.start <= g[k].span.start && g[k].span.end <= v.c.end)
    ensures Kept(g, t, req, v, k + 1, org + [k])
  {
    hide WokenOk, Covered;
    WokenCaller(g, u, k, org, v);
    assert forall m :: m in org ==> m in org + [k];
    assert k in org + [k];
  }

  /** `caller` grows by a lock that is then deleted. */
  lemma {:induction false} KeptAbsorb(g: seq<Lock>, t: Task, req: Span, u: Cursor, k: nat, org: seq<nat>, v: Cursor)
    requires Kept(g, t, req, u, k, org) && k < |g| && u.at >= 0 && DistinctIds(g)
    requires v == u.(done := u.done[u.at := u.done[u.at].(span := v.c)], c := v.c, woken := u.woken + {g[k].id})
    requires ValidRequest(v.c) && v.c.typ == u.c.typ && v.c.start <= u.c.start && u.c.end <= v.c.end
    requires Covered(v.c, req, g)
    ensures Kept(g, t, req, v, k + 1, org)
  {
    hide WokenOk, Covered;
    assert g[org[u.at]].id != g[k].id;
    WokenDrop(g, u, k, org, v);
  }

  lemma {:induction false} SkipBranch(g: seq<Lock>, t: Task, req: Span, u: Cursor, k: nat, org: seq<nat>)
    requires BranchPre(g, t, req, u, k, org)
    requires if u.c.typ == g[k].span.typ then g[k].span.end < u.c.start - 1 else g[k].span.end < u.c.start
    ensures LoopInvariant(g, t, req, u.(done := u.done + [g[k]]), k + 1, org + [k])
  {
    var v := u.(done := u.done + [g[k]]);
    KeptPush(g, t, req, u, k, org, v);
    SkipWalking(g, req, u, k, v);
    if req.typ == Unlock { SkipUnlocking(g, req, u, k, v); }
  }

  lemma {:induction false} SkipUnlocking(g: seq<Lock>, req: Span, u: Cursor, k: nat, v: Cursor)
    requires k < |g| && -1 <= u.left < |u.done| && req.typ == Unlock && Unlocking(g, req, u, k)
    requires g[k].span.end < req.start && v == u.(done := u.done + [g[k]])
    ensures Unlocking(g, req, v, k + 1)
  {
    SpansTail(g, k);
    var later, rest := CutsSome(Spans(g[k + 1..]), req), Unlocked(Spans(g[k + 1..]), req);
    assert Pending(v, later) == Pending(u, later) + [g[k].span];
    Assoc(Pending(u, later), [g[k].span], rest);
  }

  lemma {:induction false} SkipWalking(g: seq<Lock>, req: Span, u: Cursor, k: nat, v: Cursor)
    requires k < |g| && -1 <= u.at < |u.done| && -1 <= u.left < |u.done| && (u.at >= 0 ==> u.added)
    requires Walking(g, req, u, k)
    requires if u.c.typ == g[k].span.typ then g[k].span.end < u.c.start - 1 else g[k].span.end < u.c.start
    requires v == u.(done := u.done + [g[k]])
    ensures Walking(g, req, v, k + 1)
  {
    if Canonical(Spans(g)) {
      CanonicalAt(g, k);
      SpansTail(g, k);
      assert u.left < 0 && !u.added;
      assert Settled(v) == Settled(u) + [g[k].span];
      assert Settled(v) + Walk(Spans(g[k + 1..]), u.c) == Settled(u) + ([g[k].span] + Walk(Spans(g[k + 1..]), u.c));
    }
  }

  lemma {:induction false} CoveredHull(c: Span, g: seq<Lock>, k: nat, req: Span)
    requires k < |g| && Covered(c, req, g) && c.start <= c.end
    requires c.typ == g[k].span.typ && g[k].span.end >= c.start - 1 && g[k].span.start <= c.end + 1
    ensures Covered(Hull(c, g[k].span), req, g)
  {
    var h := Hull(c, g[k].span);
    forall x | h.Has(x) ensures (h.typ == req.typ && req.Has(x)) || HeldIn(g, h.typ, x) {
      if !c.Has(x) { assert g[k].span.Has(x); }
    }
  }

  ghost predicate Touching(g: seq<Lock>, u: Cursor, k: nat)
    requires k < |g|
  {
    u.c.typ == g[k].span.typ && g[k].span.end >= u.c.start - 1 && g[k].span.start <= Inc(u.c.end)
  }

  /** The first touching lock of the same type grows and becomes `caller`. */
  lemma {:induction false} MergeFirstBranch(g: seq<Lock>, t: Task, req: Span, u: Cursor, k: nat, org: seq<nat>)
    requires BranchPre(g, t, req, u, k, org) && Touching(g, u, k) && !u.added
    ensures var h := Hull(u.c, g[k].span);
      LoopInvariant(g, t, req,
        u.(done := u.done + [g[k].(span := h)], c := h, at := |u.done|, added := true), k + 1, org + [k])
  {
    var h := Hull(u.c, g[k].span);
    var v := u.(done := u.done + [g[k].(span := h)], c := h, at := |u.done|, added := true);
    CoveredHull(u.c, g, k, req);
    KeptCaller(g, t, req, u, k, org, v);
    if Canonical(Spans(g)) { MergeWalking(g, req, u, k, v); }
  }

  /** A further touching lock of the same type is absorbed and deleted. */
  lemma {:induction false} MergeMoreBranch(g: seq<Lock>, t: Task, req: Span, u: Cursor, k: nat, org: seq<nat>)
    requires BranchPre(g, t, req, u, k, org) && Touching(g, u, k) && u.added
    ensures var h := Hull(u.c, g[k].span);
      LoopInvariant(g, t, req,
        u.(done := u.done[u.at := u.done[u.at].(span := h)], c := h, woken := u.woken + {g[k].id}), k + 1, org)
  {
    var h := Hull(u.c, g[k].span);
    var v := u.(done := u.done[u.at := u.done[u.at].(span := h)], c := h, woken := u.woken + {g[k].id});
    CoveredHull(u.c, g, k, req);
    KeptAbsorb(g, t, req, u, k, org, v);
    if Canonical(Spans(g)) { MergeWalking(g, req, u, k, v); }
  }

  lemma {:induction false} MergeWalking(g: seq<Lock>, req: Span, u: Cursor, k: nat, v: Cursor)
    requires k < |g| && -1 <= u.at < |u.done| && -1 <= u.left < |u.done| && (u.at >= 0 ==> u.added && u.at != u.left)
    requires Canonical(Spans(g)) && Walking(g, req, u, k) && Touching(g, u, k) && ValidRequest(u.c)
    requires v.c == Hull(u.c, g[k].span) && v.left == u.left && v.added
    requires
      || (u.at < 0 && v.done == u.done + [g[k].(span := v.c)] && v.at == |u.done|)
      || (u.at >= 0 && v.done == u.done[u.at := u.done[u.at].(span := v.c)] && v.at == u.at)
    ensures Walking(g, req, v, k + 1)
  {
    CanonicalAt(g, k);
    SpansTail(g, k);
    assert u.left >= 0 ==> v.c.start == u.c.start;
    assert Settled(v) == Settled(u);
    if k + 1 < |g| { CanonicalNext(g, k); }
  }

  ghost predicate Overlapping(g: seq<Lock>, u: Cursor, k: nat)
    requires k < |g|
  {
    u.c.typ != g[k].span.typ && g[k].span.end >= u.c.start && g[k].span.start <= u.c.end && g[k].span.end <= u.c.end
  }

  /** A lock of another type that starts before the request and ends inside it. */
  lemma {:induction false} LeftBranch(g: seq<Lock>, t: Task, req: Span, u: Cursor, k: nat, org: seq<nat>)
    requires BranchPre(g, t, req, u, k, org) && Overlapping(g, u, k) && g[k].span.start < u.c.start
    ensures LoopInvariant(g, t, req,
      u.(done := u.done + [g[k]], added := u.added || u.c.typ == Unlock, left := |u.done|), k + 1, org + [k])
  {
    var v := u.(done := u.done + [g[k]], added := u.added || u.c.typ == Unlock, left := |u.done|);
    KeptPush(g, t, req, u, k, org, v);
    if Canonical(Spans(g)) { LeftWalking(g, req, u, k, v); }
    if req.typ == Unlock { LeftUnlocking(g, req, u, k, v); }
  }

  lemma {:induction false} LeftUnlocking(g: seq<Lock>, req: Span, u: Cursor, k: nat, v: Cursor)
    requires k < |g| && -1 <= u.left < |u.done| && req.typ == Unlock && Unlocking(g, req, u, k)
    requires Overlapping(g, u, k) && g[k].span.start < req.start
    requires v.done == u.done + [g[k]] && v.left == |u.done| && v.c == u.c
    ensures Unlocking(g, req, v, k + 1)
  {
    SpansTail(g, k);
    var later, rest := CutsSome(Spans(g[k + 1..]), req), Unlocked(Spans(g[k + 1..]), req);
    var piece := if later then g[k].span else g[k].span.(end := req.start - 1);
    assert Pending(v, later) == Spans(u.done) + [piece];
    Assoc(Spans(u.done), [piece], rest);
  }

  lemma {:induction false} SettledPush(u: Cursor, l: Lock, v: Cursor)
    requires u.at == -1 && u.left == -1
    requires v.done == u.done + [l] && v.at == -1 && v.left == |u.done| && v.c == u.c
    ensures Settled(v) == Settled(u) + [l.span.(end := u.c.start - 1)]
  {}

  lemma {:induction false} LeftWalking(g: seq<Lock>, req: Span, u: Cursor, k: nat, v: Cursor)
    requires k < |g| && -1 <= u.at < |u.done| && -1 <= u.left < |u.done| && (u.at >= 0 ==> u.added)
    requires Canonical(Spans(g)) && Walking(g, req, u, k) && Overlapping(g, u, k) && g[k].span.start < u.c.start
    requires v == u.(done := u.done + [g[k]], added := v.added, left := |u.done|)
    ensures Walking(g, req, v, k + 1)
  {
    CanonicalAt(g, k);
    SpansTail(g, k);
    assert u.left < 0 && !u.added;
    if k + 1 < |g| { CanonicalNext(g, k); }
    LeftWalks(g, u, k, v);
  }

  lemma {:induction false} LeftWalks(g: seq<Lock>, u: Cursor, k: nat, v: Cursor)
    requires k < |g| && u.at == -1 && u.left == -1 && Overlapping(g, u, k) && g[k].span.start < u.c.start
    requires v == u.(done := u.done + [g[k]], added := v.added, left := |u.done|)
    ensures Settled(v) + Walk(Spans(g[k + 1..]), u.c) == Settled(u) + Walk(Spans(g[k..]), u.c)
  {
    hide Settled;
    SpansTail(g, k);
    var piece, w := g[k].span.(end := u.c.start - 1), Walk(Spans(g[k + 1..]), u.c);
    SettledPush(u, g[k], v);
    assert Walk(Spans(g[k..]), u.c) == [piece] + w;
    Assoc(Settled(u), [piece], w);
  }

  /** A lock of another type inside the request is deleted ... */
  lemma {:induction false} DeleteBranch(g: seq<Lock>, t: Task, req: Span, u: Cursor, k: nat, org: seq<nat>)
    requires BranchPre(g, t, req, u, k, org) && Overlapping(g, u, k) && g[k].span.start >= u.c.start
    requires u.added || u.c.typ == Unlock
    ensures LoopInvariant(g, t, req, u.(added := true, woken := u.woken + {g[k].id}), k + 1, org)
  {
    var v := u.(added := true, woken := u.woken + {g[k].id});
    assert WokenOk(g, v, k + 1, org) by { WokenDrop(g, u, k, org, v); }
    if Canonical(Spans(g)) { SwallowWalking(g, req, u, k, v); }
    if req.typ == Unlock { DeleteUnlocking(g, req, u, k, v); }
  }

  lemma {:induction false} DeleteUnlocking(g: seq<Lock>, req: Span, u: Cursor, k: nat, v: Cursor)
    requires k < |g| && -1 <= u.left < |u.done| && req.typ == Unlock && Unlocking(g, req, u, k)
    requires Overlapping(g, u, k) && g[k].span.start >= req.start
    requires v.done == u.done && v.left == u.left && v.c == u.c
    ensures Unlocking(g, req, v, k + 1)
  {
    hide Spans;
    SpansTail(g, k);
  }

  lemma {:induction false} SwallowWalking(g: seq<Lock>, req: Span, u: Cursor, k: nat, v: Cursor)
    requires k < |g| && -1 <= u.at < |u.done| && -1 <= u.left < |u.done|
    requires Canonical(Spans(g)) && Walking(g, req, u, k) && Overlapping(g, u, k) && g[k].span.start >= u.c.start
    requires v.c == u.c && v.left == u.left
    requires
      || (v.done == u.done && v.at == u.at)
      || (u.at < 0 && v.done == u.done + [g[k].(span := u.c)] && v.at == |u.done|)
    ensures Walking(g, req, v, k + 1)
  {
    CanonicalAt(g, k);
    SpansTail(g, k);
    assert Settled(v) == Settled(u);
    assert LeftPiece(g[k].span, u.c) + Walk(Spans(g[k + 1..]), u.c) == Walk(Spans(g[k + 1..]), u.c);
    if k + 1 < |g| { CanonicalNext(g, k); }
  }

  /** ... or, the first time, taken over by the request. */
  lemma {:induction false} ReplaceBranch(g: seq<Lock>, t: Task, req: Span, u: Cursor, k: nat, org: seq<nat>)
    requires BranchPre(g, t, req, u, k, org) && Overlapping(g, u, k) && g[k].span.start >= u.c.start
    requires !u.added && u.c.typ != Unlock
    ensures LoopInvariant(g, t, req,
      u.(done := u.done + [g[k].(span := u.c)], at := |u.done|, added := true, woken := u.woken + {g[k].id}), k + 1,
        org + [k])
  {
    var v := u.(done := u.done + [g[k].(span := u.c)], at := |u.done|, added := true, woken := u.woken + {g[k].id});
    KeptCaller(g, t, req, u, k, org, v);
    if Canonical(Spans(g)) { SwallowWalking(g, req, u, k, v); }
  }

  // ---- after the loop ----

  /** The split, the insertion and the two cuts at the end of `posix_lock_file`. `right` says
      that the loop stopped at a lock of another type reaching past the request, `both` that
      the same lock also starts before it. */
  function Finished(g: seq<Lock>, t: Task, u: Cursor, k: nat, right: bool, both: bool, n1: nat, n2: nat): seq<Lock>
    requires k <= |g| && (right ==> k < |g|) && -1 <= u.left < |u.done|
  {
    Head(u, both) + (Copy(g, t, u, k, right && both, n2) + (New(t, u, n1) + Rest(g, u, k, right)))
  }

  /** The processed part, with the lock that reaches into the request from the left cut. */
  function Head(u: Cursor, both: bool): seq<Lock>
    requires -1 <= u.left < |u.done|
  {
    if u.left >= 0 && !both then Cut(u.done, u.left, u.c) else u.done
  }

  /** The left half of a lock split in two, in the second new entry. */
  function Copy(g: seq<Lock>, t: Task, u: Cursor, k: nat, split: bool, n2: nat): seq<Lock>
    requires split ==> k < |g|
  {
    if split then [Lock(n2, t, g[k].span.(end := u.c.start - 1))] else []
  }

  /** The request itself, in the first new entry. */
  function New(t: Task, u: Cursor, n1: nat): seq<Lock> {
    if !u.added && u.c.typ != Unlock then [Lock(n1, t, u.c)] else []
  }

  function Cut(done: seq<Lock>, left: nat, c: Span): seq<Lock>
    requires left < |done|
  {
    done[left := done[left].(span := done[left].span.(end := c.start - 1))]
  }

  /** How the loop can stop. */
  ghost predicate Stopped(g: seq<Lock>, u: Cursor, k: nat, right: bool, both: bool) {
    && k <= |g|
    && (both ==> right)
    && (if right then
          && k < |g| && u.c.typ != g[k].span.typ
          && g[k].span.end >= u.c.start && g[k].span.start <= u.c.end && g[k].span.end > u.c.end
          && (both <==> g[k].span.start < u.c.start)
        else
          k < |g| ==>
            if u.c.typ == g[k].span.typ then g[k].span.end >= u.c.start - 1 && g[k].span.start > Inc(u.c.end)
            else g[k].span.end >= u.c.start && g[k].span.start > u.c.end)
  }

  function NowWoken(g: seq<Lock>, u: Cursor, k: nat, right: bool, both: bool): set<nat>
    requires k <= |g| && (right ==> k < |g|) && -1 <= u.left < |u.done|
  {
    u.woken + (if right then {g[k].id} else {}) + (if u.left >= 0 && !both then {u.done[u.left].id} else {})
  }

  lemma {:induction false} SpansConcat(a: seq<Lock>, b: seq<Lock>)
    ensures Spans(a + b) == Spans(a) + Spans(b)
  {}

  /** The processed part and the entry of the request, cut as the code cuts them. */
  lemma {:induction false} SettledHead(t: Task, u: Cursor, n1: nat)
    requires -1 <= u.at < |u.done| && -1 <= u.left < |u.done|
    requires u.at >= 0 ==>
      u.at == |u.done| - 1 && u.added && u.left != u.at && u.done[u.at].span == u.c && u.c.typ != Unlock
    requires u.added && u.c.typ != Unlock ==> u.at >= 0
    ensures Spans(Head(u, false) + New(t, u, n1)) == Settled(u) + Entry(u.c)
  {
    var head := Head(u, false);
    SpansConcat(head, New(t, u, n1));
    if u.at >= 0 {
      assert Spans(head) == Settled(u) + [u.c];
    } else {
      assert Spans(head) == Settled(u);
    }
  }

  function Rest(g: seq<Lock>, u: Cursor, k: nat, right: bool): seq<Lock>
    requires k <= |g| && (right ==> k < |g|)
  {
    if right then [g[k].(span := g[k].span.(start := u.c.end + 1))] + g[k + 1..] else g[k..]
  }

  lemma {:induction false} FinishedSpans(g: seq<Lock>, t: Task, req: Span, u: Cursor, k: nat, org: seq<nat>,
          right: bool, both: bool, n1: nat, n2: nat)
    requires LoopInvariant(g, t, req, u, k, org) && Stopped(g, u, k, right, both) && Canonical(Spans(g))
    ensures Spans(Finished(g, t, u, k, right, both, n1, n2)) == Walk(Spans(g), req)
  {
    hide LoopInvariant, Settled, Spans, Walk, Canonical, Finished, Rest, Entry;
    var rest := Spans(Rest(g, u, k, right));
    StopFacts(g, t, req, u, k, org, right, both);
    RestSpans(g, u, k, right);
    StoppedWalk(g, u, k, right, both, rest);
    if both {
      SplitSpans(g, t, u, k, n1, n2);
    } else {
      PlainSpans(g, t, u, k, right, n1, n2);
      assert [] + (Entry(u.c) + rest) == Entry(u.c) + rest;
    }
  }

  /** What is known of the cursor where the loop stops. */
  lemma {:induction false} StopFacts(g: seq<Lock>, t: Task, req: Span, u: Cursor, k: nat, org: seq<nat>, right: bool,
          both: bool)
    requires LoopInvariant(g, t, req, u, k, org) && Stopped(g, u, k, right, both) && Canonical(Spans(g))
    ensures -1 <= u.at < |u.done| && -1 <= u.left < |u.done| && ValidRequest(u.c)
    ensures u.at >= 0 ==>
      u.at == |u.done| - 1 && u.added && u.left != u.at && u.done[u.at].span == u.c && u.c.typ != Unlock
    ensures u.added && u.c.typ != Unlock ==> u.at >= 0
    ensures Settled(u) + Walk(Spans(g[k..]), u.c) == Walk(Spans(g), req)
    ensures both ==> u.at == -1 && u.left == -1 && !u.added
  {
    hide Settled, Spans, Walk, Canonical, Covered, Grown;
  }

  lemma {:induction false} RestSpans(g: seq<Lock>, u: Cursor, k: nat, right: bool)
    requires k <= |g| && (right ==> k < |g|)
    ensures Spans(Rest(g, u, k, right)) ==
      if right then [g[k].span.(start := u.c.end + 1)] + Spans(g[k + 1..]) else Spans(g[k..])
  {}

  lemma {:induction false} Assoc<T>(a: seq<T>, b: seq<T>, c: seq<T>)
    ensures (a + b) + c == a + (b + c)
  {}

  lemma {:induction false} PlainSpans(g: seq<Lock>, t: Task, u: Cursor, k: nat, right: bool, n1: nat, n2: nat)
    requires k <= |g| && (right ==> k < |g|)
    requires -1 <= u.at < |u.done| && -1 <= u.left < |u.done|
    requires u.at >= 0 ==>
      u.at == |u.done| - 1 && u.added && u.left != u.at && u.done[u.at].span == u.c && u.c.typ != Unlock
    requires u.added && u.c.typ != Unlock ==> u.at >= 0
    ensures Spans(Finished(g, t, u, k, right, false, n1, n2)) == Settled(u) + (Entry(u.c) + Spans(Rest(g, u, k, right)))
  {
    hide Settled, Rest, Entry, Spans, Cut, Head, New;
    SettledHead(t, u, n1);
    var rest, head, new_ := Rest(g, u, k, right), Head(u, false), New(t, u, n1);
    assert Copy(g, t, u, k, false, n2) + (new_ + rest) == new_ + rest;
    Assoc(head, new_, rest);
    SpansConcat(head + new_, rest);
    Assoc(Settled(u), Entry(u.c), Spans(rest));
  }

  lemma {:induction false} SplitSpans(g: seq<Lock>, t: Task, u: Cursor, k: nat, n1: nat, n2: nat)
    requires k < |g| && u.at == -1 && u.left == -1 && !u.added
    ensures Spans(Finished(g, t, u, k, true, true, n1, n2)) ==
      Settled(u) + ([g[k].span.(end := u.c.start - 1)] + (Entry(u.c) + Spans(Rest(g, u, k, true))))
  {
    hide Rest, Cut;
    var copy, new_, rest := Copy(g, t, u, k, true, n2), New(t, u, n1), Rest(g, u, k, true);
    SpansConcat(u.done, copy + (new_ + rest));
    SpansConcat(copy, new_ + rest);
    SpansConcat(new_, rest);
    assert Spans(new_) == Entry(u.c);
    assert Spans(copy) == [g[k].span.(end := u.c.start - 1)];
  }

  /** From where the loop stops, `Walk` only emits the request and what is left. */
  lemma {:induction false} StoppedWalk(g: seq<Lock>, u: Cursor, k: nat, right: bool, both: bool, rest: seq<Span>)
    requires Stopped(g, u, k, right, both) && Canonical(Spans(g)) && ValidRequest(u.c)
    requires rest == if right then [g[k].span.(start := u.c.end + 1)] + Spans(g[k + 1..]) else Spans(g[k..])
    ensures Walk(Spans(g[k..]), u.c) ==
      (if both then [g[k].span.(end := u.c.start - 1)] else []) + (Entry(u.c) + rest)
  {
    if k < |g| { CanonicalAt(g, k); SpansTail(g, k); }
  }

  /** From where the loop stops, `Unlocked` only emits what is left. */
  lemma {:induction false} StoppedUnlocked(g: seq<Lock>, u: Cursor, k: nat, right: bool, both: bool, rest: seq<Span>)
    requires Stopped(g, u, k, right, both) && ValidRequest(u.c) && u.c.typ == Unlock
    requires k < |g| ==> g[k].span.typ != Unlock
    requires rest == if right then [g[k].span.(start := u.c.end + 1)] + Spans(g[k + 1..]) else Spans(g[k..])
    ensures CutsSome(Spans(g[k..]), u.c) == both
    ensures Unlocked(Spans(g[k..]), u.c) == (if both then [g[k].span.(end := u.c.start - 1)] else []) + rest
  {
    hide Unlocked, CutsSome;
    if k < |g| {
      SpansTail(g, k);
      UnlockEnds(Spans(g[k..]), u.c, right, both);
    } else {
      UnlockOfNone(u.c);
    }
  }

  lemma {:induction false} UnlockOfNone(c: Span)
    ensures Unlocked([], c) == [] && !CutsSome([], c)
  {}

  lemma {:induction false} UnlockEnds(h: seq<Span>, c: Span, right: bool, both: bool)
    requires h != [] && ValidRequest(c) && (both ==> right) && h[0].end >= c.start
    requires if right then h[0].start <= c.end && h[0].end > c.end && (both <==> h[0].start < c.start)
      else h[0].start > c.end
    ensures CutsSome(h, c) == both
    ensures Unlocked(h, c) ==
      (if both then [h[0].(end := c.start - 1)] else []) + if right then [h[0].(start := c.end + 1)] + h[1..] else h
  {}

  lemma {:induction false} HeadIsPending(u: Cursor, both: bool)
    requires -1 <= u.left < |u.done|
    ensures Spans(Head(u, both)) == Pending(u, both)
  {}

  /** On any run the result of an unlock is `Unlocked`. */
  lemma {:induction false} FinishedUnlocked(g: seq<Lock>, t: Task, req: Span, u: Cursor, k: nat, right: bool,
          both: bool, n1: nat, n2: nat)
    requires k <= |g| && -1 <= u.left < |u.done| && req.typ == Unlock && ValidRequest(req)
    requires Unlocking(g, req, u, k) && Stopped(g, u, k, right, both)
    requires k < |g| ==> g[k].span.typ != Unlock
    ensures Spans(Finished(g, t, u, k, right, both, n1, n2)) == Unlocked(Spans(g), req)
  {
    hide Spans, Unlocked, CutsSome, Head, Pending, Rest;
    var head, copy, rest := Head(u, both), Copy(g, t, u, k, right && both, n2), Rest(g, u, k, right);
    RestSpans(g, u, k, right);
    StoppedUnlocked(g, u, k, right, both, Spans(rest));
    HeadIsPending(u, both);
    assert New(t, u, n1) + rest == rest;
    SpansConcat(head, copy + rest);
    SpansConcat(copy, rest);
    CopySpans(g, t, u, k, both, n2);
  }

  lemma {:induction false} CopySpans(g: seq<Lock>, t: Task, u: Cursor, k: nat, split: bool, n2: nat)
    requires split ==> k < |g|
    ensures Spans(Copy(g, t, u, k, split, n2)) == if split then [g[k].span.(end := u.c.start - 1)] else []
  {}

  ghost predicate GoodEntry(n: Lock, t: Task, req: Span, g: seq<Lock>) {
    && n.task == t && Covered(n.span, req, g)
    && n.span.typ != Unlock && 0 <= n.span.start <= OFFSET_MAX && n.span.end <= OFFSET_MAX
  }

  lemma {:induction false} FinishedCovered(g: seq<Lock>, t: Task, req: Span, u: Cursor, k: nat, org: seq<nat>,
          right: bool, both: bool, n1: nat, n2: nat)
    requires Kept(g, t, req, u, k, org) && Stopped(g, u, k, right, both) && WellFormed(g)
    requires forall i :: 0 <= i < |g| ==> g[i].task == t
    ensures forall n :: n in Finished(g, t, u, k, right, both, n1, n2) ==> GoodEntry(n, t, req, g)
  {
    HeadCovered(g, t, req, u, k, org, both);
    RestCovered(g, t, req, u, k, right, both, n2);
    hide Head, Copy, Rest, GoodEntry;
    forall n | n in New(t, u, n1) ensures GoodEntry(n, t, req, g) {
      NewCovered(t, req, u, n1, g);
    }
  }

  lemma {:induction false} NewCovered(t: Task, req: Span, u: Cursor, n1: nat, g: seq<Lock>)
    requires ValidRequest(u.c) && Covered(u.c, req, g)
    ensures forall n :: n in New(t, u, n1) ==> GoodEntry(n, t, req, g)
  {}

  lemma {:induction false} HeadCovered(g: seq<Lock>, t: Task, req: Span, u: Cursor, k: nat, org: seq<nat>, both: bool)
    requires Kept(g, t, req, u, k, org) && WellFormed(g)
    ensures forall n :: n in Head(u, both) ==> GoodEntry(n, t, req, g)
  {
    forall j | 0 <= j < |u.done| ensures GoodEntry(Head(u, both)[j], t, req, g) {
      if j != u.at { CoveredPart(g, org[j], Head(u, both)[j].span, req); }
    }
  }

  lemma {:induction false} RestCovered(g: seq<Lock>, t: Task, req: Span, u: Cursor, k: nat, right: bool, both: bool,
          n2: nat)
    requires Stopped(g, u, k, right, both) && WellFormed(g) && ValidRequest(u.c)
    requires forall i :: 0 <= i < |g| ==> g[i].task == t
    ensures forall n :: n in Copy(g, t, u, k, right && both, n2) ==> GoodEntry(n, t, req, g)
    ensures forall n :: n in Rest(g, u, k, right) ==> GoodEntry(n, t, req, g)
  {
    var rest := Rest(g, u, k, right);
    forall j | 0 <= j < |rest| ensures GoodEntry(rest[j], t, req, g) {
      CoveredPart(g, k + j, rest[j].span, req);
    }
    if right && both { CoveredPart(g, k, g[k].span.(end := u.c.start - 1), req); }
  }

  lemma {:induction false} CoveredPart(g: seq<Lock>, m: nat, s: Span, req: Span)
    requires m < |g| && s.typ == g[m].span.typ && g[m].span.start <= s.start && s.end <= g[m].span.end
    ensures Covered(s, req, g)
  {
    forall x | s.Has(x) ensures HeldIn(g, s.typ, x) { assert g[m].span.Has(x); }
  }

  function Ids(ls: seq<Lock>): (r: seq<nat>)
    ensures |r| == |ls|
    ensures forall i :: 0 <= i < |ls| ==> r[i] == ls[i].id
  {
    seq(|ls|, i requires 0 <= i < |ls| => ls[i].id)
  }

  lemma {:induction false} DistinctConcat(a: seq<nat>, b: seq<nat>)
    requires NoDuplicates(a) && NoDuplicates(b) && forall i, j :: 0 <= i < |a| && 0 <= j < |b| ==> a[i] != b[j]
    ensures NoDuplicates(a + b)
  {}

  /** No id occurs twice in the result ... */
  lemma {:induction false} FinishedDistinct(g: seq<Lock>, t: Task, req: Span, u: Cursor, k: nat, org: seq<nat>,
          right: bool, both: bool, n1: nat, n2: nat)
    requires Kept(g, t, req, u, k, org) && Stopped(g, u, k, right, both) && DistinctIds(g)
    requires n1 != n2 && n1 !in Ids(g) && n2 !in Ids(g)
    ensures NoDuplicates(Ids(Finished(g, t, u, k, right, both, n1, n2)))
  {
    hide Finished, NowWoken, Covered;
    var x := FinishedIdSeq(g, t, u, k, right, both, n1, n2);
    var d, r := Ids(u.done), Ids(g[k..]);
    OriginsDistinct(g, u, k, org);
    DistinctConcat(x, r);
    DistinctConcat(d, x + r);
  }

  lemma {:induction false} OriginsDistinct(g: seq<Lock>, u: Cursor, k: nat, org: seq<nat>)
    requires k <= |g| && |org| == |u.done| && DistinctIds(g)
    requires forall j :: 0 <= j < |org| ==> org[j] < k && u.done[j].id == g[org[j]].id
    requires forall i, j :: 0 <= i < j < |org| ==> org[i] < org[j]
    ensures NoDuplicates(Ids(u.done)) && NoDuplicates(Ids(g[k..]))
    ensures forall i, j :: 0 <= i < |u.done| && 0 <= j < |g[k..]| ==> Ids(u.done)[i] != Ids(g[k..])[j]
    ensures forall j :: 0 <= j < |g[k..]| ==> Ids(g[k..])[j] in Ids(g)
    ensures forall j :: 0 <= j < |u.done| ==> Ids(u.done)[j] in Ids(g)
  {
    forall j | 0 <= j < |g[k..]| ensures Ids(g[k..])[j] in Ids(g) { assert Ids(g[k..])[j] == Ids(g)[k + j]; }
    forall j | 0 <= j < |u.done| ensures Ids(u.done)[j] in Ids(g) { assert Ids(u.done)[j] == Ids(g)[org[j]]; }
  }

  /** ... and every id is fresh or comes from the run. */
  lemma {:induction false} FinishedFrom(g: seq<Lock>, t: Task, req: Span, u: Cursor, k: nat, org: seq<nat>,
          right: bool, both: bool, n1: nat, n2: nat)
    requires Kept(g, t, req, u, k, org) && DistinctIds(g) && (right ==> k < |g|)
    ensures forall n :: n in Ids(Finished(g, t, u, k, right, both, n1, n2)) ==> n == n1 || n == n2 || n in Ids(g)
  {
    hide Finished, Covered, Stopped;
    var x := FinishedIdSeq(g, t, u, k, right, both, n1, n2);
    OriginsDistinct(g, u, k, org);
  }

  lemma {:induction false} FinishedIdSeq(g: seq<Lock>, t: Task, u: Cursor, k: nat, right: bool, both: bool, n1: nat,
          n2: nat)
    returns (x: seq<nat>)
    requires k <= |g| && (right ==> k < |g|) && -1 <= u.left < |u.done|
    ensures x == [] || x == [n1] || x == [n2] || x == [n2, n1]
    ensures Ids(Finished(g, t, u, k, right, both, n1, n2)) == Ids(u.done) + (x + Ids(g[k..]))
  {
    CutKeepsIds(u, both);
    RestKeepsIds(g, u, k, right);
    var head, copy, new_, rest := Head(u, both), Copy(g, t, u, k, right && both, n2), New(t, u, n1),
      Rest(g, u, k, right);
    x := Ids(copy) + Ids(new_);
    hide Rest, Head;
    IdsConcat(head, copy + (new_ + rest));
    IdsConcat(copy, new_ + rest);
    IdsConcat(new_, rest);
    Assoc(Ids(copy), Ids(new_), Ids(rest));
  }

  lemma {:induction false} CutKeepsIds(u: Cursor, both: bool)
    requires -1 <= u.left < |u.done|
    ensures Ids(Head(u, both)) == Ids(u.done)
  {}

  lemma {:induction false} RestKeepsIds(g: seq<Lock>, u: Cursor, k: nat, right: bool)
    requires k <= |g| && (right ==> k < |g|)
    ensures Ids(Rest(g, u, k, right)) == Ids(g[k..])
  {}

  lemma {:induction false} IdsConcat(a: seq<Lock>, b: seq<Lock>)
    ensures Ids(a + b) == Ids(a) + Ids(b)
  {}

  lemma {:induction false} FinishedSurvives(g: seq<Lock>, t: Task, req: Span, u: Cursor, k: nat, org: seq<nat>,
          right: bool, both: bool, n1: nat, n2: nat)
    requires Kept(g, t, req, u, k, org) && Stopped(g, u, k, right, both) && DistinctIds(g)
    requires n1 !in Ids(g) && n2 !in Ids(g)
    ensures forall m :: 0 <= m < |g| ==>
      (g[m].id in NowWoken(g, u, k, right, both) <==> !Survives(g[m], Finished(g, t, u, k, right, both, n1, n2)))
    ensures forall n :: n in NowWoken(g, u, k, right, both) ==> n in Ids(g)
  {
    hide Kept, Stopped, Finished, NowWoken, Survives;
    StopShape(g, t, req, u, k, org, right, both);
    forall m | 0 <= m < |g|
      ensures g[m].id in NowWoken(g, u, k, right, both) <==> !Survives(g[m], Finished(g, t, u, k, right, both, n1, n2))
    {
      if g[m].id in NowWoken(g, u, k, right, both) {
        WokenDies(g, t, req, u, k, org, right, both, n1, n2, m);
      } else {
        OthersSurvive(g, t, req, u, k, org, right, both, n1, n2, m);
      }
    }
    WokenFrom(g, t, req, u, k, org, right, both);
  }

  lemma {:induction false} WokenFrom(g: seq<Lock>, t: Task, req: Span, u: Cursor, k: nat, org: seq<nat>, right: bool,
          both: bool)
    requires Kept(g, t, req, u, k, org) && Stopped(g, u, k, right, both)
    ensures forall n :: n in NowWoken(g, u, k, right, both) ==> n in Ids(g)
  {
    forall n | n in NowWoken(g, u, k, right, both) ensures n in Ids(g) {
      if n in u.woken {
        var m :| 0 <= m < k && g[m].id == n;
        assert Ids(g)[m] == n;
      } else if right && n == g[k].id {
        assert Ids(g)[k] == n;
      } else {
        assert Ids(g)[org[u.left]] == n;
      }
    }
  }

  lemma {:induction false} OthersSurvive(g: seq<Lock>, t: Task, req: Span, u: Cursor, k: nat, org: seq<nat>,
          right: bool, both: bool, n1: nat, n2: nat, m: nat)
    requires Kept(g, t, req, u, k, org) && Stopped(g, u, k, right, both)
    requires m < |g| && g[m].id !in NowWoken(g, u, k, right, both)
    ensures Survives(g[m], Finished(g, t, u, k, right, both, n1, n2))
  {
    var mid := Finished(g, t, u, k, right, both, n1, n2);
    if m < k {
      var j :| 0 <= j < |org| && org[j] == m;
      assert mid[j] == u.done[j];
      assert Grown(g[m], mid[j]);
    } else {
      RestSurvives(g, t, u, k, right, both, n1, n2, m);
    }
  }

  /** A lock that is woken lost bytes, its type or its place. */
  lemma {:induction false} WokenDies(g: seq<Lock>, t: Task, req: Span, u: Cursor, k: nat, org: seq<nat>,
          right: bool, both: bool, n1: nat, n2: nat, m: nat)
    requires Kept(g, t, req, u, k, org) && Stopped(g, u, k, right, both) && DistinctIds(g)
    requires n1 !in Ids(g) && n2 !in Ids(g)
    requires m < |g| && g[m].id in NowWoken(g, u, k, right, both)
    ensures !Survives(g[m], Finished(g, t, u, k, right, both, n1, n2))
  {
    hide Finished, Kept, Stopped, NowWoken;
    StopShape(g, t, req, u, k, org, right, both);
    var mid := Finished(g, t, u, k, right, both, n1, n2);
    forall j | 0 <= j < |mid| && mid[j].id == g[m].id ensures !Grown(g[m], mid[j]) {
      assert Ids(g)[m] == g[m].id;
      FinishedAt(g, t, u, k, right, both, n1, n2, j);
      if j < |u.done| {
        DoneDies(g, t, req, u, k, org, right, both, m, j);
      } else if mid[j].id != n1 && mid[j].id != n2 {
        RestDies(g, t, req, u, k, org, right, both, m, j - (|mid| - |Rest(g, u, k, right)|));
      }
    }
  }

  lemma {:induction false} StopShape(g: seq<Lock>, t: Task, req: Span, u: Cursor, k: nat, org: seq<nat>, right: bool,
          both: bool)
    requires Kept(g, t, req, u, k, org) && Stopped(g, u, k, right, both)
    ensures k <= |g| && (right ==> k < |g|) && -1 <= u.left < |u.done| && |org| == |u.done|
  {}

  /** Where an entry of the finished run is from. */
  lemma {:induction false} FinishedAt(g: seq<Lock>, t: Task, u: Cursor, k: nat, right: bool, both: bool, n1: nat,
          n2: nat,
          j: nat)
    requires k <= |g| && (right ==> k < |g|) && -1 <= u.left < |u.done|
    requires j < |Finished(g, t, u, k, right, both, n1, n2)|
    ensures var mid, rest := Finished(g, t, u, k, right, both, n1, n2), Rest(g, u, k, right);
      && |Head(u, both)| == |u.done| && |u.done| <= |mid| - |rest|
      && (if j < |u.done| then mid[j] == Head(u, both)[j]
          else if j < |mid| - |rest| then mid[j].id == n1 || mid[j].id == n2
          else mid[j] == rest[j - (|mid| - |rest|)])
  {}

  lemma {:induction false} DoneDies(g: seq<Lock>, t: Task, req: Span, u: Cursor, k: nat, org: seq<nat>,
          right: bool, both: bool, m: nat, j: nat)
    requires Kept(g, t, req, u, k, org) && Stopped(g, u, k, right, both) && DistinctIds(g)
    requires m < |g| && g[m].id in NowWoken(g, u, k, right, both)
    requires j < |u.done| && Head(u, both)[j].id == g[m].id
    ensures !Grown(g[m], Head(u, both)[j])
  {
    hide Covered, Walk;
    assert g[org[j]].id == g[m].id && org[j] == m;
    assert m in org;
    if g[m].id !in u.woken {
      assert u.left >= 0 && !both && g[org[u.left]].id == g[m].id;
      assert org[u.left] == m && u.left == j;
    }
  }

  lemma {:induction false} RestDies(g: seq<Lock>, t: Task, req: Span, u: Cursor, k: nat, org: seq<nat>,
          right: bool, both: bool, m: nat, i: nat)
    requires Kept(g, t, req, u, k, org) && Stopped(g, u, k, right, both) && DistinctIds(g)
    requires m < |g| && g[m].id in NowWoken(g, u, k, right, both)
    requires i < |Rest(g, u, k, right)| && Rest(g, u, k, right)[i].id == g[m].id
    ensures !Grown(g[m], Rest(g, u, k, right)[i])
  {
    hide Covered, Walk;
    RestKeepsIds(g, u, k, right);
    assert Ids(Rest(g, u, k, right))[i] == Ids(g[k..])[i] == g[k + i].id;
    assert k + i == m;
  }

  lemma {:induction false} RestSurvives(g: seq<Lock>, t: Task, u: Cursor, k: nat, right: bool, both: bool, n1: nat,
          n2: nat, m: nat)
    requires k <= m < |g| && -1 <= u.left < |u.done| && (right ==> k < m)
    ensures Survives(g[m], Finished(g, t, u, k, right, both, n1, n2))
  {
    var mid := Finished(g, t, u, k, right, both, n1, n2);
    var rest := Rest(g, u, k, right);
    assert rest[m - k] == g[m];
    var j := |mid| - |rest| + m - k;
    assert mid[j] == g[m];
    assert Grown(g[m], mid[j]);
  }

  /** Make one lock of two: both get the lower start and the higher end. */
  method Unite(fl: Span, caller: Span) returns (fl': Span, caller': Span)
    requires fl.typ == caller.typ
    ensures fl' == caller' == Hull(caller, fl)
  {
    fl', caller' := fl, caller;
    if fl'.start > caller'.start {
      fl' := fl'.(start := caller'.start);
    } else {
      caller' := caller'.(start := fl'.start);
    }
    if fl'.end < caller'.end { fl' := fl'.(end := caller'.end); } else { caller' := caller'.(end := fl'.end); }
  }

  /** The second loop of the apply phase: process the owner's run. The list from the run on
      is `done + tail`, cut where `before` points; `tail0[..b]` is the run. `left == |done|`
      when `left` is the entry at `before`, as `right` always is. The ghost cursor has the
      loop variables as the last iteration began. */
  method ProcessRun(tail0: seq<Lock>, t: Task, req: Span, ghost b: nat)
    returns (done: seq<Lock>, tail: seq<Lock>, caller: Span, added: bool, left: int, right: bool, woken: set<nat>,
             ghost u: Cursor, ghost k: nat, ghost org: seq<nat>)
    requires ValidRequest(req) && WellFormed(tail0) && FirstRun(tail0, t, 0, b)
    ensures k <= b && tail == tail0[k..]
    ensures LoopInvariant(tail0[..b], t, req, u, k, org)
    ensures done == u.done && caller == u.c && woken == u.woken
    ensures added == (u.added || (right && caller.typ == Unlock))
    ensures left == u.left || (right && left == |done|)
    ensures Stopped(tail0[..b], u, k, right, right && left == |done|)
  {
    hide LoopInvariant, WellFormed, ValidRequest;
    ghost var g := tail0[..b];
    done, tail, k, org := [], tail0, 0, [];
    var callerAt := -1;
    caller, added, left, right, woken := req, false, -1, false, {};
    LoopStarts(g, t, req);
    u := Cursor(done, caller, callerAt, added, left, woken);
    while tail != [] && tail[0].task == t
      invariant k <= b && tail == tail0[k..] && !right
      invariant -1 <= callerAt < |done| && -1 <= left < |done|
      invariant caller.typ == req.typ && (req.typ != Unlock ==> added == (callerAt >= 0))
      invariant u == Cursor(done, caller, callerAt, added, left, woken)
      invariant LoopInvariant(g, t, req, u, k, org)
      decreases b - k
    {
      var fl := tail[0];
      RunEntry(tail0, t, b, k);
      if caller.typ == fl.span.typ {
        if fl.span.end < caller.start - 1 {
          SkipBranch(g, t, req, u, k, org);
          k, org := k + 1, org + [k];
          done, tail := done + [fl], tail[1..];
          u := Cursor(done, caller, callerAt, added, left, woken);
          continue;
        }
        if fl.span.start > Inc(caller.end) {
          break;
        }
        var flSpan;
        flSpan, caller := Unite(fl.span, caller);
        if added {
          MergeMoreBranch(g, t, req, u, k, org);
          k := k + 1;
          // `caller` points into the list, so widening it widens the entry.
          done, tail := done[callerAt := done[callerAt].(span := caller)], tail[1..];
          woken := woken + {fl.id};
          u := Cursor(done, caller, callerAt, added, left, woken);
          continue;
        }
        MergeFirstBranch(g, t, req, u, k, org);
        fl := fl.(span := flSpan);
        callerAt := |done|;
        added := true;
      } else {
        if fl.span.end < caller.start {
          SkipBranch(g, t, req, u, k, org);
          k, org := k + 1, org + [k];
          done, tail := done + [fl], tail[1..];
          u := Cursor(done, caller, callerAt, added, left, woken);
          continue;
        }
        if fl.span.start > caller.end {
          break;
        }
        if caller.typ == Unlock {
          added := true;
        }
        if fl.span.start < caller.start {
          left := |done|;
        }
        if fl.span.end > caller.end {
          right := true;
          break;
        }
        if fl.span.start >= caller.start {
          if added {
            DeleteBranch(g, t, req, u, k, org);
            k := k + 1;
            tail := tail[1..];
            woken := woken + {fl.id};
            u := Cursor(done, caller, callerAt, added, left, woken);
            continue;
          }
          ReplaceBranch(g, t, req, u, k, org);
          woken := woken + {fl.id};
          fl := fl.(span := caller);
          callerAt := |done|;
          added := true;
        } else {
          LeftBranch(g, t, req, u, k, org);
        }
      }
      k, org := k + 1, org + [k];
      done, tail := done + [fl], tail[1..];
      u := Cursor(done, caller, callerAt, added, left, woken);
    }
  }

  lemma {:induction false} LoopStarts(g: seq<Lock>, t: Task, req: Span)
    requires ValidRequest(req)
    ensures LoopInvariant(g, t, req, Cursor([], req, -1, false, -1, {}), 0, [])
  {
    assert g[0..] == g;
    assert [] + Walk(Spans(g), req) == Walk(Spans(g), req);
    assert [] + Unlocked(Spans(g), req) == Unlocked(Spans(g), req);
  }

  lemma {:induction false} RunEntry(tail0: seq<Lock>, t: Task, b: nat, k: nat)
    requires FirstRun(tail0, t, 0, b) && WellFormed(tail0) && k <= b && k < |tail0| && tail0[k].task == t
    ensures k < b && WellFormed(tail0[..b]) && forall i :: 0 <= i < b ==> tail0[..b][i].task == t
  {}

  /** The insertions and cuts after the loop; `left` and `right` as in `ProcessRun`. */
  method FinishRun(done0: seq<Lock>, tail0: seq<Lock>, t: Task, caller: Span, added: bool, left: int, right: bool,
          woken0: set<nat>, n1: nat, n2: nat,
                   ghost g: seq<Lock>, ghost u: Cursor, ghost k: nat, ghost rest: seq<Lock>)
    returns (done: seq<Lock>, tail: seq<Lock>, woken: set<nat>)
    requires k <= |g| && (right ==> k < |g|) && tail0 == g[k..] + rest
    requires done0 == u.done && caller == u.c && woken0 == u.woken
    requires added == (u.added || (right && caller.typ == Unlock))
    requires -1 <= u.left < |u.done| && (caller.typ == Unlock && u.left >= 0 ==> u.added)
    requires left == u.left || (right && left == |done0|)
    requires right && caller.typ == Unlock ==> added
    ensures done + tail == Finished(g, t, u, k, right, right && left == |done0|, n1, n2) + rest
    ensures woken == NowWoken(g, u, k, right, right && left == |done0|)
  {
    hide Rest, Finished;
    ghost var both := right && left == |done0|;
    done, tail, woken := done0, tail0, woken0;
    ghost var e1 := Rest(g, u, k, right) + rest;
    RestFrom(g, u, k, right, rest);
    if right {
      var fl := tail[0];
      tail := [fl.(span := fl.span.(start := caller.end + 1))] + tail[1..];
      woken := woken + {fl.id};
    }
    assert tail == e1;
    if !added && caller.typ != Unlock {
      tail := [Lock(n1, t, caller)] + tail;
    }
    assert tail == New(t, u, n1) + e1;
    if right && left == |done0| {
      // The request breaks one lock in two: the second new entry takes the left half.
      tail := [Lock(n2, t, tail0[0].span.(end := caller.start - 1))] + tail;
    } else if left >= 0 {
      done := done[left := done[left].(span := done[left].span.(end := caller.start - 1))];
      woken := woken + {done[left].id};
    }
    FinishedParts(g, t, u, k, right, both, n1, n2, rest);
  }

  lemma {:induction false} RestFrom(g: seq<Lock>, u: Cursor, k: nat, right: bool, rest: seq<Lock>)
    requires k <= |g| && (right ==> k < |g|)
    ensures !right ==> Rest(g, u, k, right) + rest == g[k..] + rest
    ensures right ==>
      && (g[k..] + rest)[0] == g[k]
      && Rest(g, u, k, right) + rest == [g[k].(span := g[k].span.(start := u.c.end + 1))] + (g[k..] + rest)[1..]
  {}

  lemma {:induction false} FinishedParts(g: seq<Lock>, t: Task, u: Cursor, k: nat, right: bool, both: bool, n1: nat,
          n2: nat, rest: seq<Lock>)
    requires k <= |g| && (right ==> k < |g|) && -1 <= u.left < |u.done|
    ensures Finished(g, t, u, k, right, both, n1, n2) + rest ==
      Head(u, both) + (Copy(g, t, u, k, right && both, n2) + (New(t, u, n1) + (Rest(g, u, k, right) + rest)))
  {
    hide Head, Copy, New, Rest;
    var h, c, n, r := Head(u, both), Copy(g, t, u, k, right && both, n2), New(t, u, n1), Rest(g, u, k, right);
    Assoc(h, c + (n + r), rest);
    Assoc(c, n + r, rest);
    Assoc(n, r, rest);
  }

  /** The end of the run that starts at `a`. */
  ghost function RunEnd(list: seq<Lock>, t: Task, a: nat): (b: nat)
    requires a <= |list|
    ensures a <= b <= |list| && (b < |list| ==> list[b].task != t)
    ensures forall i :: a <= i < b ==> list[i].task == t
    ensures a < |list| && list[a].task == t ==> a < b
    decreases |list| - a
  {
    if a < |list| && list[a].task == t then RunEnd(list, t, a + 1) else a
  }

  /** The apply phase of `posix_lock_file`: it cannot fail and does not sleep. `n1` and `n2`
      are the two locks allocated in advance; `woken` holds the locks whose sleepers were
      woken. Nothing is assumed about the order of the list. */
  method ApplyLock(list0: seq<Lock>, t: Task, req: Span, n1: nat, n2: nat)
    returns (list: seq<Lock>, woken: set<nat>, ghost a: nat, ghost b: nat, ghost mid: seq<Lock>)
    requires ValidRequest(req) && WellFormed(list0) && n1 != n2
    requires n1 !in Ids(list0) && n2 !in Ids(list0)
    ensures FirstRun(list0, t, a, b)
    ensures list == list0[..a] + mid + list0[b..]
    ensures RunApplied(list0[a..b], t, req, n1, n2, mid, woken)
  {
    hide LoopInvariant, Stopped, Finished, NowWoken, RunApplied, WellFormed, ValidRequest, Ids;
    var before := 0;
    while before < |list0| && list0[before].task != t
      invariant 0 <= before <= |list0|
      invariant forall i :: 0 <= i < before ==> list0[i].task != t
    {
      before := before + 1;
    }
    a, b := before, RunEnd(list0, t, before);
    ghost var g := list0[a..b];
    RunFacts(list0, t, a, b, n1, n2);
    var done, tail, caller, added, left, right, woken1;
    ghost var u, k, org;
    done, tail, caller, added, left, right, woken1, u, k, org := ProcessRun(list0[before..], t, req, b - a);
    ghost var both := right && left == |done|;
    StoppedFacts(g, t, req, u, k, org, right, both);
    TailOfRun(list0, a, b, k);
    done, tail, woken := FinishRun(done, tail, t, caller, added, left, right, woken1, n1, n2, g, u, k, list0[b..]);
    mid := Finished(g, t, u, k, right, both, n1, n2);
    list := list0[..before] + (done + tail);
    FinishedApplies(g, t, req, u, k, org, right, both, n1, n2, woken);
    Assoc(list0[..a], mid, list0[b..]);
  }

  lemma {:induction false} RunFacts(list0: seq<Lock>, t: Task, a: nat, b: nat, n1: nat, n2: nat)
    requires FirstRun(list0, t, a, b) && WellFormed(list0)
    requires n1 !in Ids(list0) && n2 !in Ids(list0)
    ensures FirstRun(list0[a..], t, 0, b - a) && WellFormed(list0[a..]) && WellFormed(list0[a..b])
    ensures list0[a..][..b - a] == list0[a..b]
    ensures forall i :: 0 <= i < |list0[a..b]| ==> list0[a..b][i].task == t
    ensures n1 !in Ids(list0[a..b]) && n2 !in Ids(list0[a..b])
  {
    forall i | 0 <= i < b - a ensures Ids(list0[a..b])[i] == Ids(list0)[a + i] {}
  }

  lemma {:induction false} TailOfRun(list0: seq<Lock>, a: nat, b: nat, k: nat)
    requires a + k <= b <= |list0|
    ensures list0[a..][k..] == list0[a..b][k..] + list0[b..]
  {}

  lemma {:induction false} StoppedFacts(g: seq<Lock>, t: Task, req: Span, u: Cursor, k: nat, org: seq<nat>,
          right: bool, both: bool)
    requires LoopInvariant(g, t, req, u, k, org) && Stopped(g, u, k, right, both)
    ensures k <= |g| && (right ==> k < |g|)
    ensures -1 <= u.left < |u.done| && (u.c.typ == Unlock && u.left >= 0 ==> u.added)
  {}

  lemma {:induction false} FinishedApplies(g: seq<Lock>, t: Task, req: Span, u: Cursor, k: nat, org: seq<nat>,
          right: bool, both: bool, n1: nat, n2: nat, woken: set<nat>)
    requires LoopInvariant(g, t, req, u, k, org) && Stopped(g, u, k, right, both) && WellFormed(g)
    requires forall i :: 0 <= i < |g| ==> g[i].task == t
    requires n1 != n2 && n1 !in Ids(g) && n2 !in Ids(g)
    requires woken == NowWoken(g, u, k, right, both)
    ensures RunApplied(g, t, req, n1, n2, Finished(g, t, u, k, right, both, n1, n2), woken)
  {
    hide Finished, NowWoken, Walking, Unlocking, Kept, Stopped, Covered, Survives, Spans, Walk, Unlocked, Canonical;
    StoppedFacts(g, t, req, u, k, org, right, both);
    var mid := Finished(g, t, u, k, right, both, n1, n2);
    if Canonical(Spans(g)) { FinishedSpans(g, t, req, u, k, org, right, both, n1, n2); }
    if req.typ == Unlock {
      UnlockFacts(g, t, req, u, k, org);
      FinishedUnlocked(g, t, req, u, k, right, both, n1, n2);
    }
    FinishedCovered(g, t, req, u, k, org, right, both, n1, n2);
    FinishedSurvives(g, t, req, u, k, org, right, both, n1, n2);
    FinishedDistinct(g, t, req, u, k, org, right, both, n1, n2);
    FinishedFrom(g, t, req, u, k, org, right, both, n1, n2);
    IdsApart(mid, g, n1, n2);
    forall j | 0 <= j < |mid| ensures GoodEntry(mid[j], t, req, g) {}
  }

  lemma {:induction false} UnlockFacts(g: seq<Lock>, t: Task, req: Span, u: Cursor, k: nat, org: seq<nat>)
    requires LoopInvariant(g, t, req, u, k, org) && req.typ == Unlock && WellFormed(g)
    ensures k <= |g| && -1 <= u.left < |u.done| && ValidRequest(req) && Unlocking(g, req, u, k)
    ensures k < |g| ==> g[k].span.typ != Unlock
  {
    hide Unlocked, CutsSome, Covered, Walking;
  }

  lemma {:induction false} IdsApart(mid: seq<Lock>, g: seq<Lock>, n1: nat, n2: nat)
    requires NoDuplicates(Ids(mid)) && forall n :: n in Ids(mid) ==> n == n1 || n == n2 || n in Ids(g)
    ensures DistinctIds(mid)
    ensures forall j :: 0 <= j < |mid| ==> mid[j].id == n1 || mid[j].id == n2 || mid[j].id in Ids(g)
  {
    forall j | 0 <= j < |mid| ensures mid[j].id == n1 || mid[j].id == n2 || mid[j].id in Ids(g) {
      assert Ids(mid)[j] in Ids(mid);
    }
    forall i, j | 0 <= i < j < |mid| ensures mid[i].id != mid[j].id {
      assert Ids(mid)[i] != Ids(mid)[j];
    }
  }
}
