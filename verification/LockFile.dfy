/** What one call does to an inode's whole lock list: the byte map of every owner, the
    canonical form, and who may hold what at once (fs/locks.c). */
module LockFile {
  import opened Lists
  import opened LockSpans
  import opened UnlockSpans
  import opened LockList

  // ---- the meaning of a list ----

  /** The spans of task `t`, in list order. */
  function Of(list: seq<Lock>, t: Task): seq<Span> {
    if list == [] then [] else (if list[0].task == t then [list[0].span] else []) + Of(list[1..], t)
  }

  /** How task `t` holds byte `x`. */
  function Held(list: seq<Lock>, t: Task, x: int): LockType { TypeAt(Of(list, t), x) }

  ghost predicate Contiguous(list: seq<Lock>, t: Task) {
    forall i, j, k :: 0 <= i < j < k < |list| && list[i].task == t && list[k].task == t ==> list[j].task == t
  }

  /** Each owner's locks are contiguous, sorted by start, disjoint and merged. */
  ghost predicate CanonicalFile(list: seq<Lock>) {
    forall t :: Contiguous(list, t) && Canonical(Of(list, t))
  }

  lemma {:induction false} OfConcat(a: seq<Lock>, b: seq<Lock>, t: Task)
    ensures Of(a + b, t) == Of(a, t) + Of(b, t)
  {
    if a == [] {
      assert a + b == b;
    } else {
      assert (a + b)[1..] == a[1..] + b;
      OfConcat(a[1..], b, t);
    }
  }

  lemma {:induction false} OfAll(a: seq<Lock>, t: Task)
    requires forall i :: 0 <= i < |a| ==> a[i].task == t
    ensures Of(a, t) == Spans(a)
  {
    if a != [] {
      OfAll(a[1..], t);
      assert Spans(a) == [a[0].span] + Spans(a[1..]);
    }
  }

  lemma {:induction false} OfNone(a: seq<Lock>, t: Task)
    requires forall i :: 0 <= i < |a| ==> a[i].task != t
    ensures Of(a, t) == []
  {
    if a != [] { OfNone(a[1..], t); }
  }

  /** One apply phase: task `t` asked for `req` on list `before`, which became `after`, and the
      sleepers on the locks in `woken` were woken. The owner's first run, `before[a..b]`, was
      replaced by `mid`. */
  datatype Change = Change(before: seq<Lock>, t: Task, req: Span, n1: nat, n2: nat, after: seq<Lock>, woken: set<nat>,
                           a: nat, b: nat, mid: seq<Lock>) {
    ghost predicate Applied() {
      && ValidRequest(req)
      && FirstRun(before, t, a, b)
      && after == before[..a] + mid + before[b..]
      && RunApplied(before[a..b], t, req, n1, n2, mid, woken)
    }
  }

  lemma {:induction false} OfThree(a: seq<Lock>, m: seq<Lock>, b: seq<Lock>, t: Task)
    ensures Of(a + m + b, t) == Of(a, t) + Of(m, t) + Of(b, t)
  {
    OfConcat(a + m, b, t);
    OfConcat(a, m, t);
  }

  /** Nobody else's locks change. */
  lemma {:induction false} OthersUntouched(c: Change, t': Task)
    requires c.Applied() && t' != c.t
    ensures Of(c.after, t') == Of(c.before, t')
  {
    assert c.before == c.before[..c.a] + c.before[c.a..c.b] + c.before[c.b..];
    OfThree(c.before[..c.a], c.before[c.a..c.b], c.before[c.b..], t');
    OfThree(c.before[..c.a], c.mid, c.before[c.b..], t');
    OfNone(c.before[c.a..c.b], t');
    OfNone(c.mid, t');
  }

  lemma {:induction false} NoneAfterRun(list0: seq<Lock>, t: Task, a: nat, b: nat)
    requires FirstRun(list0, t, a, b) && Contiguous(list0, t)
    ensures forall i :: b <= i < |list0| ==> list0[i].task != t
  {
    forall i | b <= i < |list0| ensures list0[i].task != t {
      assert list0[a].task == t;
    }
  }

  lemma {:induction false} OfMiddle(p: seq<Lock>, m: seq<Lock>, s: seq<Lock>, t: Task)
    requires forall i :: 0 <= i < |p| ==> p[i].task != t
    requires forall i :: 0 <= i < |s| ==> s[i].task != t
    requires forall i :: 0 <= i < |m| ==> m[i].task == t
    ensures Of(p + m + s, t) == Spans(m)
  {
    OfThree(p, m, s, t);
    OfNone(p, t);
    OfNone(s, t);
    OfAll(m, t);
  }

  /** On a canonical list the owner's spans become `Walk` of what they were. */
  lemma {:induction false} OwnerWalks(c: Change)
    requires c.Applied()
    requires Contiguous(c.before, c.t) && Canonical(Of(c.before, c.t))
    ensures Of(c.after, c.t) == Walk(Of(c.before, c.t), c.req)
  {
    hide Survives, Covered, Walk, Unlocked, Canonical;
    NoneAfterRun(c.before, c.t, c.a, c.b);
    assert c.before == c.before[..c.a] + c.before[c.a..c.b] + c.before[c.b..];
    OfMiddle(c.before[..c.a], c.before[c.a..c.b], c.before[c.b..], c.t);
    OfMiddle(c.before[..c.a], c.mid, c.before[c.b..], c.t);
  }

  /** Every owner's locks stay together. */
  lemma {:induction false} StaysContiguous(c: Change, t': Task)
    requires c.Applied()
    requires Contiguous(c.before, c.t) && Contiguous(c.before, t')
    ensures Contiguous(c.after, t')
  {
    hide RunApplied;
    NoneAfterRun(c.before, c.t, c.a, c.b);
    var d := c.a + |c.mid|;
    assert forall j :: 0 <= j < |c.mid| ==> c.mid[j].task == c.t by {
      RunIsOwners(c.before[c.a..c.b], c.t, c.req, c.n1, c.n2, c.mid, c.woken);
    }
    forall i, j, k | 0 <= i < j < k < |c.after| && c.after[i].task == t' && c.after[k].task == t'
      ensures c.after[j].task == t'
    {
      if t' != c.t {
        assert i < c.a || d <= i;
        assert k < c.a || d <= k;
        NotAcross(c, t');
        assert d <= k ==> c.after[k] == c.before[k - d + c.b];
        if i < c.a {
          assert c.after[j] == c.before[j];
        } else {
          assert c.after[i] == c.before[i - d + c.b] && c.after[j] == c.before[j - d + c.b] &&
            c.after[k] == c.before[k - d + c.b];
        }
      }
    }
  }

  /** No other owner has locks on both sides of the run. */
  lemma {:induction false} NotAcross(c: Change, t': Task)
    requires c.Applied() && t' != c.t && Contiguous(c.before, t')
    ensures forall i, k :: 0 <= i < c.a && c.b <= k < |c.before| ==> c.before[i].task != t' || c.before[k].task != t'
  {
    forall i, k | 0 <= i < c.a && c.b <= k < |c.before| ensures c.before[i].task != t' || c.before[k].task != t' {
      assert c.before[c.a].task == c.t;
    }
  }

  lemma {:induction false} RunIsOwners(g: seq<Lock>, t: Task, req: Span, n1: nat, n2: nat, mid: seq<Lock>,
          woken: set<nat>)
    requires RunApplied(g, t, req, n1, n2, mid, woken)
    ensures forall j :: 0 <= j < |mid| ==> mid[j].task == t
  {}

  /** The canonical form survives the call exactly when the end offset does not wrap. */
  lemma {:induction false} CanonicalIffNoWrap(c: Change)
    requires c.Applied()
    requires CanonicalFile(c.before)
    ensures CanonicalFile(c.after) <==> !Wraps(Of(c.before, c.t), c.req)
  {
    hide RunApplied, Contiguous;
    OwnerWalks(c);
    if Wraps(Of(c.before, c.t), c.req) {
      WrapBreaksCanonical(Of(c.before, c.t), c.req);
    } else {
      WalkCanonical(Of(c.before, c.t), c.req);
      forall t' ensures Contiguous(c.after, t') && Canonical(Of(c.after, t')) {
        StaysContiguous(c, t');
        if t' != c.t { OthersUntouched(c, t'); }
      }
    }
  }

  /** The call changes the byte map of the owner exactly on the requested range, and no
      other owner's at all. */
  lemma {:induction false} BytesChangeExactly(c: Change, t': Task, x: int)
    requires c.Applied()
    requires CanonicalFile(c.before)
    ensures Held(c.after, t', x) == if t' == c.t && c.req.Has(x) then c.req.typ else Held(c.before, t', x)
  {
    hide RunApplied;
    if t' == c.t {
      OwnerWalks(c);
      WalkTypeAt(Of(c.before, c.t), c.req, x);
    } else {
      OthersUntouched(c, t');
    }
  }

  /** After the call the owner has no lock of another type in the requested range, exactly unless
      the request wraps at a lock that one of another type follows. */
  lemma {:induction false} RangeTakenIff(c: Change)
    requires c.Applied()
    requires CanonicalFile(c.before)
    ensures Foreign(Of(c.after, c.t), c.req) <==> LeavesStale(Of(c.before, c.t), c.req)
  {
    hide RunApplied;
    OwnerWalks(c);
    RangeIsCleanIff(Of(c.before, c.t), c.req);
  }

  /** Requests that leave an old lock of another type in the range just taken: a read lock under a
      write lock, and after a downgrade a write lock under a read lock. */
  lemma {:induction false} StaleExample(old_: LockType, new_: LockType)
    requires old_ != Unlock && new_ != Unlock && old_ != new_
    ensures var g := [Span(new_, 10, 60), Span(old_, 70, 80)]; var c := Span(new_, 50, OFFSET_MAX);
      Canonical(g) && ValidRequest(c) && LeavesStale(g, c) && Walk(g, c) == [c] + g && Foreign(Walk(g, c), c)
  {
    var g, c := [Span(new_, 10, 60), Span(old_, 70, 80)], Span(new_, 50, OFFSET_MAX);
    assert g[0].typ == c.typ && g[0].end >= c.start - 1 && g[1].typ != c.typ;
    RangeIsCleanIff(g, c);
  }

  /** A request that wraps: the owner ends up with two overlapping write locks. */
  lemma {:induction false} WrapExample()
    ensures var g := [Span(Write, 100, OFFSET_MAX)]; var c := Span(Write, 50, OFFSET_MAX);
      Canonical(g) && ValidRequest(c) && Wraps(g, c) && Walk(g, c) == [c, g[0]] && !Canonical(Walk(g, c))
  {
    var g, c := [Span(Write, 100, OFFSET_MAX)], Span(Write, 50, OFFSET_MAX);
    assert g[0].typ == c.typ && g[0].end >= c.start - 1;
    WrapBreaksCanonical(g, c);
  }

  // ---- conflicts ----

  /** `posix_locks_conflict`: does `sys` stand in the way of `caller`? */
  predicate PosixConflict(callerTask: Task, caller: Span, sysTask: Task, sys: Span) {
    && callerTask != sysTask
    && caller.end >= sys.start && sys.end >= caller.start
    && match caller.typ { case Read => sys.typ == Write case Write => true case Unlock => false }
  }

  /** Two owners hold a common byte only if both read. */
  ghost predicate Exclusive(list: seq<Lock>) {
    forall i, j, x :: 0 <= i < |list| && 0 <= j < |list| && list[i].task != list[j].task && list[i].span.Has(x) &&
      list[j].span.Has(x)
      ==> list[i].span.typ == Read && list[j].span.typ == Read
  }

  ghost predicate NoConflict(list: seq<Lock>, t: Task, req: Span) {
    forall i :: 0 <= i < |list| ==> !PosixConflict(t, req, list[i].task, list[i].span)
  }

  // ---- what the conflict test means ----

  /** An entry that was cut down past its own start: it has no byte, but the overlap test takes it
      for one that has the bytes from its end to its start. */
  predicate Backward(l: Lock) { l.span.end < l.span.start }

  /** The request can join the list. It is an unlock; or it and the locks of the list exclude each
      other, and it does not span a backward entry of another owner, unless both are read locks. */
  ghost predicate Fits(list: seq<Lock>, t: Task, req: Span) {
    || req.typ == Unlock
    || (&& Exclusive(list + [Lock(0, t, req)])
        && forall i :: 0 <= i < |list| && Backward(list[i]) && list[i].task != t ==>
             (list[i].span.typ == Read && req.typ == Read) || !req.Has(list[i].span.end) ||
               !req.Has(list[i].span.start))
  }

  /** One entry: the test tells whether some byte is shared that must not be. */
  lemma {:induction false} ConflictIff(l: Lock, t: Task, req: Span)
    requires ValidRequest(req) && l.span.typ != Unlock && req.typ != Unlock
    ensures PosixConflict(t, req, l.task, l.span) <==>
      && l.task != t && !(l.span.typ == Read && req.typ == Read)
      && if Backward(l) then req.Has(l.span.end) && req.Has(l.span.start) else exists x :: l.span.Has(x) && req.Has(x)
  {
    if !Backward(l) && req.end >= l.span.start && l.span.end >= req.start {
      var x := Max(l.span.start, req.start);
      assert l.span.Has(x) && req.Has(x);
    }
  }

  lemma {:induction false} JoinsExclusive(list: seq<Lock>, l: Lock)
    requires Exclusive(list)
    ensures Exclusive(list + [l]) <==>
      forall i, x :: 0 <= i < |list| && list[i].task != l.task && list[i].span.Has(x) && l.span.Has(x) ==>
        list[i].span.typ == Read && l.span.typ == Read
  {
    var r := list + [l];
    assert r[|list|] == l && forall i :: 0 <= i < |list| ==> r[i] == list[i];
    if Exclusive(r) {
      forall i, x | 0 <= i < |list| && list[i].task != l.task && list[i].span.Has(x) && l.span.Has(x)
        ensures list[i].span.typ == Read && l.span.typ == Read
      {
        assert r[i].task != r[|list|].task && r[i].span.Has(x) && r[|list|].span.Has(x);
      }
    }
  }

  /** The scan finds nothing in the way exactly if the request can join the list. */
  lemma {:induction false} NoConflictIff(list: seq<Lock>, t: Task, req: Span)
    requires Exclusive(list) && WellFormed(list) && ValidRequest(req)
    ensures NoConflict(list, t, req) <==> Fits(list, t, req)
  {
    hide Exclusive, PosixConflict;
    if req.typ == Unlock {
      UnlockNeverConflicts(list, t, req);
    } else {
      JoinsExclusive(list, Lock(0, t, req));
      forall i | 0 <= i < |list|
        ensures !PosixConflict(t, req, list[i].task, list[i].span) <==> EntryFits(list[i], t, req)
      {
        ConflictIff(list[i], t, req);
      }
      FitsByEntry(list, t, req);
    }
  }

  ghost predicate EntryFits(l: Lock, t: Task, req: Span) {
    || l.task == t
    || (l.span.typ == Read && req.typ == Read)
    || if Backward(l) then !req.Has(l.span.end) || !req.Has(l.span.start) else forall x :: l.span.Has(x) ==> !req.Has(x)
  }

  lemma {:induction false} FitsByEntry(list: seq<Lock>, t: Task, req: Span)
    requires Exclusive(list) && req.typ != Unlock
    ensures Fits(list, t, req) <==> forall i :: 0 <= i < |list| ==> EntryFits(list[i], t, req)
  {
    hide Exclusive;
    JoinsExclusive(list, Lock(0, t, req));
    if Fits(list, t, req) {
      forall i | 0 <= i < |list| ensures EntryFits(list[i], t, req) {}
    }
    if forall i :: 0 <= i < |list| ==> EntryFits(list[i], t, req) {
      forall i, x | 0 <= i < |list| && list[i].task != t && list[i].span.Has(x) && req.Has(x)
        ensures list[i].span.typ == Read && req.typ == Read
      {
        assert EntryFits(list[i], t, req);
      }
      forall i | 0 <= i < |list| && Backward(list[i]) && list[i].task != t
        ensures (list[i].span.typ == Read && req.typ == Read) || !req.Has(list[i].span.end) ||
          !req.Has(list[i].span.start)
      {
        assert EntryFits(list[i], t, req);
      }
    }
  }

  lemma {:induction false} UnlockNeverConflicts(list: seq<Lock>, t: Task, req: Span)
    requires req.typ == Unlock
    ensures NoConflict(list, t, req)
  {}

  /** Where a byte of an entry of the new list comes from. */
  lemma {:induction false} ByteOrigin(c: Change, i: nat, x: int)
    returns (m: int)
    requires c.Applied()
    requires i < |c.after| && c.after[i].span.Has(x)
    ensures -1 <= m < |c.before|
    ensures m >= 0 ==>
      c.before[m].task == c.after[i].task && c.before[m].span.typ == c.after[i].span.typ && c.before[m].span.Has(x)
    ensures m < 0 ==> c.after[i].task == c.t && c.after[i].span.typ == c.req.typ && c.req.Has(x)
  {
    hide Survives, Canonical, Walk, Unlocked, Spans;
    var g := c.before[c.a..c.b];
    var d := c.a + |c.mid|;
    if i < c.a {
      m := i;
    } else if i >= d {
      m := i - d + c.b;
      assert c.after[i] == c.before[m];
    } else {
      assert c.after[i] == c.mid[i - c.a];
      assert c.mid[i - c.a].task == c.t && Covered(c.mid[i - c.a].span, c.req, g);
      if c.after[i].span.typ == c.req.typ && c.req.Has(x) {
        m := -1;
      } else {
        assert HeldIn(g, c.after[i].span.typ, x);
        var k :| 0 <= k < |g| && g[k].span.typ == c.after[i].span.typ && g[k].span.Has(x);
        m := c.a + k;
      }
    }
  }

  /** A granted request keeps owners from holding a byte in conflicting ways, on every list. */
  lemma {:induction false} StaysExclusive(c: Change)
    requires c.Applied()
    requires Exclusive(c.before) && WellFormed(c.before) && WellFormed(c.after)
    requires NoConflict(c.before, c.t, c.req)
    ensures Exclusive(c.after)
  {
    hide RunApplied;
    forall i, j, x | 0 <= i < |c.after| && 0 <= j < |c.after| && c.after[i].task != c.after[j].task &&
      c.after[i].span.Has(x) && c.after[j].span.Has(x)
      ensures c.after[i].span.typ == Read && c.after[j].span.typ == Read
    {
      var m := ByteOrigin(c, i, x);
      var n := ByteOrigin(c, j, x);
      if m >= 0 && n >= 0 {
        assert c.before[m].span.typ == Read && c.before[n].span.typ == Read;
      } else if m >= 0 {
        assert !PosixConflict(c.t, c.req, c.before[m].task, c.before[m].span);
      } else {
        assert !PosixConflict(c.t, c.req, c.before[n].task, c.before[n].span);
      }
    }
  }

  /** Ids stay distinct, and new ones are the two allocated in advance. */
  lemma {:induction false} StaysWellFormed(c: Change)
    requires c.Applied() && WellFormed(c.before)
    requires c.n1 !in Ids(c.before) && c.n2 !in Ids(c.before)
    ensures WellFormed(c.after)
    ensures forall n :: n in Ids(c.after) ==> n == c.n1 || n == c.n2 || n in Ids(c.before)
  {
    var p, g, s := Ids(c.before[..c.a]), Ids(c.before[c.a..c.b]), Ids(c.before[c.b..]);
    var m := Ids(c.mid);
    IdsSplit(c.before, c.a, c.b);
    assert forall n :: n in m ==> n == c.n1 || n == c.n2 || n in g;
    IdsConcat(c.before[..c.a] + c.mid, c.before[c.b..]);
    IdsConcat(c.before[..c.a], c.mid);
    assert Ids(c.after) == p + m + s;
    DistinctMiddle(p, g, s, m, {c.n1, c.n2});
    EntriesWellFormed(c);
  }

  lemma {:induction false} IdsSplit(l: seq<Lock>, a: nat, b: nat)
    requires a <= b <= |l|
    ensures Ids(l) == Ids(l[..a]) + Ids(l[a..b]) + Ids(l[b..])
  {}

  lemma {:induction false} DistinctMiddle(p: seq<nat>, g: seq<nat>, s: seq<nat>, m: seq<nat>, fresh_: set<nat>)
    requires NoDuplicates(p + g + s) && NoDuplicates(m)
    requires forall n :: n in m ==> n in fresh_ || n in g
    requires forall n :: n in p + g + s ==> n !in fresh_
    ensures NoDuplicates(p + m + s)
  {
    var w := p + g + s;
    forall i, k | 0 <= i < |p| && 0 <= k < |g| ensures p[i] != g[k] { assert w[i] != w[|p| + k]; }
    forall k, j | 0 <= k < |g| && 0 <= j < |s| ensures g[k] != s[j] { assert w[|p| + k] != w[|p| + |g| + j]; }
    forall i, j | 0 <= i < |p| && 0 <= j < |s| ensures p[i] != s[j] { assert w[i] != w[|p| + |g| + j]; }
    forall i, j | 0 <= i < j < |s| ensures s[i] != s[j] { assert w[|p| + |g| + i] != w[|p| + |g| + j]; }
    forall i, j | 0 <= i < j < |p| ensures p[i] != p[j] { assert w[i] != w[j]; }
    forall i, j | 0 <= i < |p| && 0 <= j < |m| ensures p[i] != m[j] { assert w[i] in w; }
    forall j, i | 0 <= j < |m| && 0 <= i < |s| ensures m[j] != s[i] { assert w[|p| + |g| + i] in w; }
    DistinctConcat(p, m);
    DistinctConcat(p + m, s);
  }

  lemma {:induction false} EntriesWellFormed(c: Change)
    requires c.Applied() && WellFormed(c.before) && NoDuplicates(Ids(c.after))
    ensures WellFormed(c.after)
  {
    forall i, j | 0 <= i < j < |c.after| ensures c.after[i].id != c.after[j].id {
      assert Ids(c.after)[i] != Ids(c.after)[j];
    }
    var d := c.a + |c.mid|;
    forall i | 0 <= i < |c.after|
      ensures c.after[i].span.typ != Unlock && 0 <= c.after[i].span.start && c.after[i].span.end <= OFFSET_MAX
    {
      if i >= d { assert c.after[i] == c.before[i - d + c.b]; }
      else if i >= c.a { assert c.after[i] == c.mid[i - c.a]; }
    }
  }

  lemma {:induction false} LockSurvives(c: Change, m: nat)
    requires c.Applied()
    requires m < |c.before| && c.before[m].id !in c.woken
    ensures Survives(c.before[m], c.after)
  {
    hide Covered, Canonical, Walk, Unlocked, Spans;
    var g := c.before[c.a..c.b];
    var d := c.a + |c.mid|;
    if m < c.a {
      assert Grown(c.before[m], c.after[m]);
    } else if m >= c.b {
      assert c.after[m - c.b + d] == c.before[m];
      assert Grown(c.before[m], c.after[m - c.b + d]);
    } else {
      assert g[m - c.a] == c.before[m];
      assert Survives(g[m - c.a], c.mid);
      var j :| 0 <= j < |c.mid| && Grown(g[m - c.a], c.mid[j]);
      assert c.after[c.a + j] == c.mid[j];
    }
  }

  /** Exactly the sleepers on locks that lost bytes, their type or their place are woken. */
  lemma {:induction false} WokenIff(c: Change, m: nat)
    requires c.Applied() && WellFormed(c.before) && m < |c.before|
    requires c.n1 !in Ids(c.before) && c.n2 !in Ids(c.before)
    ensures c.before[m].id in c.woken <==> !Survives(c.before[m], c.after)
  {
    if c.before[m].id in c.woken {
      WokenInRun(c, m);
      forall j | 0 <= j < |c.after| ensures !Grown(c.before[m], c.after[j]) { NotInOthers(c, m, j); }
    } else {
      LockSurvives(c, m);
    }
  }

  lemma {:induction false} WokenInRun(c: Change, m: nat)
    requires c.Applied() && DistinctIds(c.before) && m < |c.before| && c.before[m].id in c.woken
    ensures c.a <= m < c.b && !Survives(c.before[m], c.mid)
  {
    hide Survives;
    var g := c.before[c.a..c.b];
    var i :| 0 <= i < |Ids(g)| && Ids(g)[i] == c.before[m].id;
    assert g[i] == c.before[c.a + i];
  }

  lemma {:induction false} NotInOthers(c: Change, m: nat, j: nat)
    requires c.Applied() && DistinctIds(c.before) && c.a <= m < c.b && !Survives(c.before[m], c.mid) && j < |c.after|
    ensures !Grown(c.before[m], c.after[j])
  {
    hide RunApplied;
    var d := c.a + |c.mid|;
    if j < c.a {
      assert c.after[j] == c.before[j];
    } else if j >= d {
      assert c.after[j] == c.before[j - d + c.b];
    } else {
      assert c.after[j] == c.mid[j - c.a];
    }
  }
}
