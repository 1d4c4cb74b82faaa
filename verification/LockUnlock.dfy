/** Unlocking on lists that need not be canonical, over whole files and whole runs (fs/locks.c). */
module LockUnlock {
  import opened LockSpans
  import opened UnlockSpans
  import opened LockList
  import opened LockFile
  import opened LockManager

  // ---- one call ----

  /** The owner's spans after an unlock, on every list that keeps each owner's locks together. */
  lemma {:induction false} OwnerUnlocks(c: Change)
    requires c.Applied() && c.req.typ == Unlock && Contiguous(c.before, c.t)
    ensures Of(c.after, c.t) == Unlocked(Of(c.before, c.t), c.req)
  {
    hide Unlocked, Survives, Covered, Walk, Canonical;
    NoneAfterRun(c.before, c.t, c.a, c.b);
    assert c.before == c.before[..c.a] + c.before[c.a..c.b] + c.before[c.b..];
    OfMiddle(c.before[..c.a], c.before[c.a..c.b], c.before[c.b..], c.t);
    OfMiddle(c.before[..c.a], c.mid, c.before[c.b..], c.t);
  }

  /** A byte is still locked after the unlock exactly if a lock of the owner had it and it lies
      outside the request or in a lock that was missed. */
  lemma {:induction false} UnlockChangesExactly(c: Change, typ: LockType, x: int)
    requires c.Applied() && c.req.typ == Unlock && Contiguous(c.before, c.t)
    ensures HasByte(Of(c.after, c.t), typ, x) <==> exists m :: Remains(Of(c.before, c.t), c.req, m, typ, x)
  {
    OwnerUnlocks(c);
    UnlockedBytes(Of(c.before, c.t), c.req, typ, x);
  }

  /** An unlock of the whole file leaves the owner no byte. */
  lemma {:induction false} WholeFileUnlocked(c: Change, typ: LockType, x: int)
    requires c.Applied() && c.req == Span(Unlock, 0, OFFSET_MAX)
    requires Contiguous(c.before, c.t) && WellFormed(c.before)
    ensures !HasByte(Of(c.after, c.t), typ, x)
  {
    hide RunApplied;
    OwnerUnlocks(c);
    OfWellFormed(c.before, c.t);
    UnlockAllClears(Of(c.before, c.t), c.req);
    StartsKept(Of(c.before, c.t), c.req);
  }

  lemma {:induction false} OfWellFormed(list: seq<Lock>, t: Task)
    requires WellFormed(list)
    ensures forall i :: 0 <= i < |Of(list, t)| ==>
      0 <= Of(list, t)[i].start <= OFFSET_MAX && Of(list, t)[i].end <= OFFSET_MAX
  {
    if list != [] { OfWellFormed(list[1..], t); }
  }

  /** Unlocking starts no lock below the first byte. */
  lemma {:induction false} StartsKept(g: seq<Span>, c: Span)
    requires (forall i :: 0 <= i < |g| ==> 0 <= g[i].start) && 0 <= c.start <= c.end
    ensures forall i :: 0 <= i < |Unlocked(g, c)| ==> 0 <= Unlocked(g, c)[i].start
  {
    if g != [] {
      forall i | 0 <= i < |g[1..]| ensures 0 <= g[1..][i].start { assert g[1..][i] == g[i + 1]; }
      StartsKept(g[1..], c);
    }
  }

  // ---- whole runs ----

  /** Each owner's locks are together in every file. */
  ghost predicate Together(s: State) { forall ino, t :: Contiguous(s.List(ino), t) }

  lemma {:induction false} StepKeepsTogether(s: State, e: Event, s': State)
    requires Step(s, e, s') && Together(s)
    ensures Together(s')
  {
    hide Change.Applied, Contiguous;
    forall ino, t ensures Contiguous(s'.List(ino), t) {
      assert Contiguous(s.List(ino), t);
      match e
      case Granted(c, o) =>
        if o == ino {
          assert Contiguous(s.List(ino), c.t);
          StaysContiguous(c, t);
        }
      case Closed(o, owner) =>
        if o == ino { CloseKeepsContiguous(s.List(ino), owner, t); }
      case _ =>
    }
  }

  lemma {:induction false} RunKeepsTogether(states: seq<State>, events: seq<Event>, n: nat)
    requires IsRun(states, events) && n < |states|
    ensures Together(states[n])
    decreases n
  {
    hide Step, Together;
    if n == 0 {
      InitiallyTogether();
    } else {
      RunKeepsTogether(states, events, n - 1);
      StepKeepsTogether(states[n - 1], events[n - 1], states[n]);
    }
  }

  lemma {:induction false} InitiallyTogether()
    ensures Together(INITIAL)
  {}

  /** Over every run, whatever wrapped before: when an unlock has returned, a byte is still locked
      exactly if it is outside the request or in a lock that was missed, and after an unlock of the
      whole file no byte is. */
  lemma {:induction false} RunUnlocks(states: seq<State>, events: seq<Event>, n: nat, typ: LockType, x: int)
    requires IsRun(states, events) && n < |events| && events[n].Granted? && events[n].c.req.typ == Unlock
    ensures var (c, ino) := (events[n].c, events[n].ino);
      && (HasByte(Of(states[n + 1].List(ino), c.t), typ, x) <==>
          exists m :: Remains(Of(states[n].List(ino), c.t), c.req, m, typ, x))
      && (c.req == Span(Unlock, 0, OFFSET_MAX) ==> !HasByte(Of(states[n + 1].List(ino), c.t), typ, x))
  {
    hide Change.Applied, HasByte, Remains, Contiguous, Inv, Together;
    var (c, ino) := (events[n].c, events[n].ino);
    assert Step(states[n], events[n], states[n + 1]);
    RunKeepsTogether(states, events, n);
    RunKeepsInv(states, events, n);
    ListFacts(states[n], ino, c.t);
    UnlockChangesExactly(c, typ, x);
    if c.req == Span(Unlock, 0, OFFSET_MAX) { WholeFileUnlocked(c, typ, x); }
  }

  lemma {:induction false} ListFacts(s: State, ino: int, t: Task)
    requires Together(s) && Inv(s)
    ensures Contiguous(s.List(ino), t) && WellFormed(s.List(ino))
  {
    assert FileOk(s, ino);
  }

  // ---- a run in which an unlock misses bytes ----

  const LOW := Span(Write, 10, 60)
  const HIGH := Span(Write, 50, OFFSET_MAX)
  const RANGE := Span(Unlock, 0, 55)

  lemma {:induction false} FirstLock(t: Task) returns (c: Change)
    ensures c.Applied() && c.before == [] && c.t == t && c.req == LOW && c.n1 == 0 && c.n2 == 1
    ensures c.after == [Lock(0, t, LOW)] && c.woken == {}
  {
    c := Change([], t, LOW, 0, 1, [Lock(0, t, LOW)], {}, 0, 0, [Lock(0, t, LOW)]);
    assert Spans(c.mid) == [LOW] && Spans(c.before[0..0]) == [];
  }

  lemma {:induction false} SecondLock(t: Task) returns (c: Change)
    ensures c.Applied() && c.before == [Lock(0, t, LOW)] && c.t == t && c.req == HIGH && c.n1 == 2 && c.n2 == 3
    ensures c.after == [Lock(2, t, HIGH), Lock(0, t, LOW)] && c.woken == {}
  {
    hide RunApplied;
    var g, mid := [Lock(0, t, LOW)], [Lock(2, t, HIGH), Lock(0, t, LOW)];
    c := Change(g, t, HIGH, 2, 3, mid, {}, 0, 1, mid);
    assert g[0..1] == g && g[..0] + mid + g[1..] == mid;
    SecondApplied(t, g, mid);
  }

  lemma {:induction false} SecondApplied(t: Task, g: seq<Lock>, mid: seq<Lock>)
    requires g == [Lock(0, t, LOW)] && mid == [Lock(2, t, HIGH), Lock(0, t, LOW)]
    ensures RunApplied(g, t, HIGH, 2, 3, mid, {})
  {
    hide Walk;
    assert Spans(g) == [LOW] && Spans(mid) == [HIGH] + [LOW];
    SecondWalk();
    assert Grown(g[0], mid[1]);
    assert 0 in Ids(g) by { assert Ids(g)[0] == 0; }
    forall x | LOW.Has(x) ensures HeldIn(g, Write, x) { assert g[0].span.Has(x); }
  }

  lemma {:induction false} SecondWalk()
    ensures Walk([LOW], HIGH) == [HIGH] + [LOW]
  {}

  lemma {:induction false} ThenUnlock(t: Task) returns (c: Change)
    ensures c.Applied() && c.before == [Lock(2, t, HIGH), Lock(0, t, LOW)] && c.t == t && c.req == RANGE
    ensures c.after == [Lock(2, t, HIGH.(start := 56)), Lock(0, t, LOW)] && c.n1 == 4 && c.n2 == 5
  {
    hide RunApplied;
    var g, mid := [Lock(2, t, HIGH), Lock(0, t, LOW)], [Lock(2, t, HIGH.(start := 56)), Lock(0, t, LOW)];
    c := Change(g, t, RANGE, 4, 5, mid, {2}, 0, 2, mid);
    assert g[0..2] == g && g[..0] + mid + g[2..] == mid;
    ThirdApplied(t, g, mid);
  }

  lemma {:induction false} ThirdApplied(t: Task, g: seq<Lock>, mid: seq<Lock>)
    requires g == [Lock(2, t, HIGH), Lock(0, t, LOW)]
    requires mid == [Lock(2, t, HIGH.(start := 56)), Lock(0, t, LOW)]
    ensures RunApplied(g, t, RANGE, 4, 5, mid, {2})
  {
    assert Spans(g) == [HIGH, LOW] && Spans(mid) == [HIGH.(start := 56), LOW];
    assert !Apart(Spans(g)[0], Spans(g)[1]);
    assert Spans(g)[1..] == [LOW];
    assert Ids(g)[0] == 2 && Ids(g)[1] == 0;
    assert Grown(g[1], mid[1]);
    forall x | LOW.Has(x) ensures HeldIn(g, Write, x) { assert g[1].span.Has(x); }
    forall x | mid[0].span.Has(x) ensures HeldIn(g, Write, x) { assert g[0].span.Has(x); }
  }

  /** A run from the start in which an unlock of bytes 0 to 55 succeeds and leaves 10 to 55 locked. */
  lemma {:induction false} UnlockMisses(t: Task) returns (states: seq<State>, events: seq<Event>)
    ensures IsRun(states, events) && |events| == 3 && events[2].Granted? && events[2].c.req == RANGE
    ensures forall x :: 10 <= x <= 55 ==> HasByte(Of(states[3].List(0), t), Write, x)
  {
    hide Change.Applied;
    var c1 := FirstLock(t);
    var c2 := SecondLock(t);
    var c3 := ThenUnlock(t);
    var s1 := State(map[0 := c1.after], [], 2);
    var s2 := State(map[0 := c2.after], [], 4);
    var s3 := State(map[0 := c3.after], [], 6);
    states, events := [INITIAL, s1, s2, s3], [Granted(c1, 0), Granted(c2, 0), Granted(c3, 0)];
    assert INITIAL.files[0 := c1.after] == s1.files && s1.files[0 := c2.after] == s2.files;
    assert s2.files[0 := c3.after] == s3.files;
    assert Step(INITIAL, Granted(c1, 0), s1);
    assert Step(s1, Granted(c2, 0), s2);
    assert Step(s2, Granted(c3, 0), s3);
    OfAll(c3.after, t);
    assert Spans(c3.after)[1] == LOW;
  }
}
