/** One System V semaphore set as its books: the values and the undo structures (ipc/sem.c).
    A semop list is tried operation by operation and rolled back when it cannot complete. */
module SemOps {

  const SEMVMX := 32767
  const SEMAEM := SEMVMX

  const EINTR := -4
  const EAGAIN := -11
  const EINVAL := -22
  const EFBIG := -27
  const ERANGE := -34
  const E2BIG := -7
  const EIDRM := -43

  /** A `sembuf`; `undo` and `nowait` are its SEM_UNDO and IPC_NOWAIT flags. */
  datatype Op = Op(num: nat, op: int, undo: bool, nowait: bool)

  /** A `sem_undo` of one process for this set. */
  datatype Undo = Undo(proc: nat, adj: seq<int>)

  datatype Books = Books(vals: seq<int>, undos: seq<Undo>)

  predicate OpsFit(ops: seq<Op>, n: nat) { forall k :: 0 <= k < |ops| ==> ops[k].num < n }

  function Bump(v: seq<int>, i: nat, d: int): seq<int>
    requires i < |v|
  {
    v[i := v[i] + d]
  }

  /** The values after the first `k` operations. */
  function Vals(v: seq<int>, ops: seq<Op>, k: nat): (r: seq<int>)
    requires k <= |ops| && OpsFit(ops, |v|)
    ensures |r| == |v|
  {
    if k == 0 then v else Bump(Vals(v, ops, k - 1), ops[k - 1].num, ops[k - 1].op)
  }

  /** The adjustments after the first `k` operations. */
  function Adj(a: seq<int>, ops: seq<Op>, k: nat): (r: seq<int>)
    requires k <= |ops| && OpsFit(ops, |a|)
    ensures |r| == |a|
  {
    if k == 0 then a
    else if ops[k - 1].undo then Bump(Adj(a, ops, k - 1), ops[k - 1].num, -ops[k - 1].op)
    else Adj(a, ops, k - 1)
  }

  datatype Verdict = Fine | Blocks | Range

  predicate InUndoRange(x: int) { -SEMAEM - 1 <= x <= SEMAEM }

  /** What becomes of operation `k` when those before it have been done. */
  function OpVerdict(v: seq<int>, a: seq<int>, ops: seq<Op>, k: nat): Verdict
    requires k < |ops| && OpsFit(ops, |v|) && |a| == |v|
  {
    var op := ops[k];
    var now := Vals(v, ops, k)[op.num];
    if op.op == 0 && now != 0 then Blocks
    else if op.undo && !InUndoRange(Adj(a, ops, k)[op.num] - op.op) then Range
    else if now + op.op < 0 then Blocks
    else if now + op.op > SEMVMX then Range
    else Fine
  }

  /** The result of `try_atomic_semop` from operation `k` on: 0 if all can be done, 1 if the
      caller must sleep, else an error. */
  function Try(v: seq<int>, a: seq<int>, ops: seq<Op>, k: nat): int
    requires k <= |ops| && OpsFit(ops, |v|) && |a| == |v|
    decreases |ops| - k
  {
    if k == |ops| then 0
    else match OpVerdict(v, a, ops, k)
      case Fine => Try(v, a, ops, k + 1)
      case Blocks => if ops[k].nowait then EAGAIN else 1
      case Range => ERANGE
  }

  function Find(undos: seq<Undo>, proc: nat): (i: int)
    ensures -1 <= i < |undos|
    ensures i >= 0 ==> undos[i].proc == proc
    ensures i < 0 ==> forall j :: 0 <= j < |undos| ==> undos[j].proc != proc
  {
    if undos == [] then -1
    else if undos[0].proc == proc then 0
    else var i := Find(undos[1..], proc); if i < 0 then -1 else i + 1
  }

  function Zeros(n: nat): (r: seq<int>)
    ensures |r| == n && forall i :: 0 <= i < n ==> r[i] == 0
  {
    seq(n, _ => 0)
  }

  function AdjOf(b: Books, proc: nat): seq<int> {
    var i := Find(b.undos, proc);
    if i < 0 then Zeros(|b.vals|) else b.undos[i].adj
  }

  ghost predicate Shaped(b: Books) {
    forall i :: 0 <= i < |b.undos| ==> |b.undos[i].adj| == |b.vals|
  }

  predicate UsesUndo(ops: seq<Op>) { exists k :: 0 <= k < |ops| && ops[k].undo }

  /** The books after the whole operation list of `proc`. */
  function Apply(b: Books, proc: nat, ops: seq<Op>): Books
    requires Shaped(b) && OpsFit(ops, |b.vals|)
  {
    var i := Find(b.undos, proc);
    Books(Vals(b.vals, ops, |ops|),
          if i < 0 then b.undos else b.undos[i := Undo(proc, Adj(b.undos[i].adj, ops, |ops|))])
  }

  /** The verdict on the whole list. */
  function TryOps(b: Books, proc: nat, ops: seq<Op>): int
    requires Shaped(b) && OpsFit(ops, |b.vals|)
  {
    Try(b.vals, AdjOf(b, proc), ops, 0)
  }

  // ---- what a completed list means ----

  /** 0 means that no operation met an obstacle. */
  lemma {:induction false} TryZero(v: seq<int>, a: seq<int>, ops: seq<Op>, k: nat)
    requires k <= |ops| && OpsFit(ops, |v|) && |a| == |v|
    ensures Try(v, a, ops, k) == 0 <==> forall j :: k <= j < |ops| ==> OpVerdict(v, a, ops, j) == Fine
    ensures Try(v, a, ops, k) in {0, 1, EAGAIN, ERANGE}
    decreases |ops| - k
  {
    if k < |ops| { TryZero(v, a, ops, k + 1); }
  }

  /** Nothing is in the way of operation `k`: a wait for zero finds zero, the value after it is from 0
      to SEMVMX, and so is the adjustment after it in its range. */
  ghost predicate Clear(v: seq<int>, a: seq<int>, ops: seq<Op>, k: nat)
    requires k < |ops| && OpsFit(ops, |v|) && |a| == |v|
  {
    && (ops[k].op == 0 ==> Vals(v, ops, k)[ops[k].num] == 0)
    && 0 <= Vals(v, ops, k + 1)[ops[k].num] <= SEMVMX
    && (ops[k].undo ==> -SEMAEM - 1 <= Adj(a, ops, k + 1)[ops[k].num] <= SEMAEM)
  }

  /** Operation `k` is the first that meets an obstacle. */
  ghost predicate FirstObstacle(v: seq<int>, a: seq<int>, ops: seq<Op>, k: nat) {
    && k < |ops| && OpsFit(ops, |v|) && |a| == |v|
    && !Clear(v, a, ops, k) && forall j :: 0 <= j < k ==> Clear(v, a, ops, j)
  }

  ghost predicate ObstacleAfter(v: seq<int>, a: seq<int>, ops: seq<Op>, k: nat) {
    exists m: nat :: k < m && FirstObstacle(v, a, ops, m)
  }

  /** The code for the first obstacle, at operation `k`. A wait for zero on a nonzero value has to
      sleep; else an adjustment out of range is an error; else a value below zero has to sleep; else
      the value is above SEMVMX, which is an error. */
  ghost predicate Answers(v: seq<int>, a: seq<int>, ops: seq<Op>, k: nat, result: int)
    requires k < |ops| && OpsFit(ops, |v|) && |a| == |v|
  {
    var op := ops[k];
    var before, after, adj := Vals(v, ops, k)[op.num], Vals(v, ops, k + 1)[op.num], Adj(a, ops, k + 1)[op.num];
    var adjOk := !op.undo || -SEMAEM - 1 <= adj <= SEMAEM;
    && (result == EAGAIN <==> op.nowait && ((op.op == 0 && before != 0) || (adjOk && after < 0)))
    && (result == 1 <==> !op.nowait && ((op.op == 0 && before != 0) || (adjOk && after < 0)))
    && (result == ERANGE <==> !(op.op == 0 && before != 0) && (!adjOk || after > SEMVMX))
  }

  lemma {:induction false} TryIs(v: seq<int>, a: seq<int>, ops: seq<Op>)
    requires OpsFit(ops, |v|) && |a| == |v|
    ensures Try(v, a, ops, 0) == 0 <==> forall k :: 0 <= k < |ops| ==> Clear(v, a, ops, k)
    ensures forall k: nat :: FirstObstacle(v, a, ops, k) ==> Answers(v, a, ops, k, Try(v, a, ops, 0))
  {
    hide Clear, Answers, Try;
    forall k: nat | FirstObstacle(v, a, ops, k)
      ensures Answers(v, a, ops, k, Try(v, a, ops, 0)) && Try(v, a, ops, 0) != 0
    {
      TryFrom(v, a, ops, k);
      AnswersAt(v, a, ops, k);
    }
    if forall k :: 0 <= k < |ops| ==> Clear(v, a, ops, k) {
      TryFrom(v, a, ops, |ops|);
      TryEnd(v, a, ops);
    } else {
      var k := Obstacle(v, a, ops, |ops|);
    }
  }

  /** 0 means that every wait for zero finds zero and that all values and adjustments on the way are in
      their ranges; anything else comes from a first obstacle, before which all this was so. */
  lemma {:induction false} TryClear(v: seq<int>, a: seq<int>, ops: seq<Op>)
    requires OpsFit(ops, |v|) && |a| == |v|
    ensures Try(v, a, ops, 0) in {0, 1, EAGAIN, ERANGE}
    ensures Try(v, a, ops, 0) != 0 ==> exists k: nat :: FirstObstacle(v, a, ops, k)
    ensures forall k: nat :: FirstObstacle(v, a, ops, k) ==>
      var op := ops[k];
      var before, after, adj := Vals(v, ops, k)[op.num], Vals(v, ops, k + 1)[op.num], Adj(a, ops, k + 1)[op.num];
      var adjOk := !op.undo || -SEMAEM - 1 <= adj <= SEMAEM;
      && (Try(v, a, ops, 0) == EAGAIN <==> op.nowait && ((op.op == 0 && before != 0) || (adjOk && after < 0)))
      && (Try(v, a, ops, 0) == 1 <==> !op.nowait && ((op.op == 0 && before != 0) || (adjOk && after < 0)))
      && (Try(v, a, ops, 0) == ERANGE <==> !(op.op == 0 && before != 0) && (!adjOk || after > SEMVMX))
    ensures forall k :: 0 <= k < |ops| && (Try(v, a, ops, 0) == 0 || ObstacleAfter(v, a, ops, k)) ==>
      && (ops[k].op == 0 ==> Vals(v, ops, k)[ops[k].num] == 0)
      && 0 <= Vals(v, ops, k + 1)[ops[k].num] <= SEMVMX
      && (ops[k].undo ==> -SEMAEM - 1 <= Adj(a, ops, k + 1)[ops[k].num] <= SEMAEM)
  {
    hide Vals, Adj, Try;
    TryIs(v, a, ops);
    TryZero(v, a, ops, 0);
    forall k: nat | FirstObstacle(v, a, ops, k) ensures Answers(v, a, ops, k, Try(v, a, ops, 0)) {}
    if Try(v, a, ops, 0) != 0 {
      var k := Obstacle(v, a, ops, |ops|);
    }
    forall k | 0 <= k < |ops| && (Try(v, a, ops, 0) == 0 || ObstacleAfter(v, a, ops, k))
      ensures
        && (ops[k].op == 0 ==> Vals(v, ops, k)[ops[k].num] == 0)
        && 0 <= Vals(v, ops, k + 1)[ops[k].num] <= SEMVMX
        && (ops[k].undo ==> -SEMAEM - 1 <= Adj(a, ops, k + 1)[ops[k].num] <= SEMAEM)
    {
      assert Clear(v, a, ops, k);
    }
  }

  lemma {:induction false} TryEnd(v: seq<int>, a: seq<int>, ops: seq<Op>)
    requires OpsFit(ops, |v|) && |a| == |v|
    ensures Try(v, a, ops, |ops|) == 0
  {}

  lemma {:induction false} AnswersAt(v: seq<int>, a: seq<int>, ops: seq<Op>, k: nat)
    requires k < |ops| && OpsFit(ops, |v|) && |a| == |v| && !Clear(v, a, ops, k)
    ensures Answers(v, a, ops, k, Try(v, a, ops, k)) && Try(v, a, ops, k) != 0
  {}

  lemma {:induction false} Obstacle(v: seq<int>, a: seq<int>, ops: seq<Op>, n: nat) returns (k: nat)
    requires OpsFit(ops, |v|) && |a| == |v| && n <= |ops|
    requires !forall k :: 0 <= k < n ==> Clear(v, a, ops, k)
    ensures k < n && FirstObstacle(v, a, ops, k)
  {
    if forall k :: 0 <= k < n - 1 ==> Clear(v, a, ops, k) {
      k := n - 1;
    } else {
      k := Obstacle(v, a, ops, n - 1);
    }
  }

  /** What is clear is passed over. */
  lemma {:induction false} TryFrom(v: seq<int>, a: seq<int>, ops: seq<Op>, k: nat)
    requires OpsFit(ops, |v|) && |a| == |v| && k <= |ops|
    requires forall j :: 0 <= j < k ==> Clear(v, a, ops, j)
    ensures Try(v, a, ops, 0) == Try(v, a, ops, k)
  {
    if k > 0 {
      TryFrom(v, a, ops, k - 1);
      assert Clear(v, a, ops, k - 1);
    }
  }

  /** What the first `k` operations move semaphore `i` by, and what of it is registered for undo. */
  function Moved(ops: seq<Op>, i: nat, k: nat): int
    requires k <= |ops|
  {
    if k == 0 then 0 else Moved(ops, i, k - 1) + if ops[k - 1].num == i then ops[k - 1].op else 0
  }

  function Registered(ops: seq<Op>, i: nat, k: nat): int
    requires k <= |ops|
  {
    if k == 0 then 0
    else Registered(ops, i, k - 1) + if ops[k - 1].num == i && ops[k - 1].undo then ops[k - 1].op else 0
  }

  /** Values and adjustments are the old ones with the sums of the operations on them. */
  lemma {:induction false} PrefixSums(v: seq<int>, a: seq<int>, ops: seq<Op>, k: nat, i: nat)
    requires k <= |ops| && OpsFit(ops, |v|) && |a| == |v| && i < |v|
    ensures Vals(v, ops, k)[i] == v[i] + Moved(ops, i, k)
    ensures Adj(a, ops, k)[i] == a[i] - Registered(ops, i, k)
  {
    if k > 0 { PrefixSums(v, a, ops, k - 1, i); }
  }

  ghost predicate ValsOk(v: seq<int>) { forall i :: 0 <= i < |v| ==> 0 <= v[i] }
  ghost predicate AdjOk(a: seq<int>) { forall i :: 0 <= i < |a| ==> InUndoRange(a[i]) }

  /** Values stay non-negative and adjustments in range while the operations are fine. */
  lemma {:induction false} PrefixOk(v: seq<int>, a: seq<int>, ops: seq<Op>, k: nat)
    requires k <= |ops| && OpsFit(ops, |v|) && |a| == |v| && ValsOk(v) && AdjOk(a)
    requires forall j :: 0 <= j < k ==> OpVerdict(v, a, ops, j) == Fine
    ensures ValsOk(Vals(v, ops, k)) && AdjOk(Adj(a, ops, k))
  {
    if k > 0 {
      PrefixOk(v, a, ops, k - 1);
      assert OpVerdict(v, a, ops, k - 1) == Fine;
    }
  }

  // ---- conservation ----

  function SumAdj(undos: seq<Undo>, i: nat): int
    requires forall j :: 0 <= j < |undos| ==> i < |undos[j].adj|
  {
    if undos == [] then 0 else undos[0].adj[i] + SumAdj(undos[1..], i)
  }

  /** A semaphore's value with everything that exits would still give back or take. */
  function Total(b: Books, i: nat): int
    requires Shaped(b) && i < |b.vals|
  {
    b.vals[i] + SumAdj(b.undos, i)
  }

  /** The operations on semaphore `i` that no exit will undo. */
  function Permanent(ops: seq<Op>, i: nat, k: nat): int
    requires k <= |ops|
  {
    if k == 0 then 0
    else Permanent(ops, i, k - 1) + if ops[k - 1].num == i && !ops[k - 1].undo then ops[k - 1].op else 0
  }

  /** Value and adjustment together move by the permanent operations only. */
  lemma {:induction false} PrefixConserves(v: seq<int>, a: seq<int>, ops: seq<Op>, k: nat, i: nat)
    requires k <= |ops| && OpsFit(ops, |v|) && |a| == |v| && i < |v|
    ensures Vals(v, ops, k)[i] + Adj(a, ops, k)[i] == v[i] + a[i] + Permanent(ops, i, k)
  {
    if k > 0 { PrefixConserves(v, a, ops, k - 1, i); }
  }

  lemma {:induction false} NoUndoAllPermanent(v: seq<int>, ops: seq<Op>, k: nat, i: nat)
    requires k <= |ops| && OpsFit(ops, |v|) && i < |v| && !UsesUndo(ops)
    ensures Vals(v, ops, k)[i] == v[i] + Permanent(ops, i, k)
  {
    if k > 0 {
      NoUndoAllPermanent(v, ops, k - 1, i);
      assert !ops[k - 1].undo;
    }
  }

  lemma {:induction false} SumAdjUpdate(undos: seq<Undo>, u: nat, n: Undo, i: nat)
    requires u < |undos| && i < |n.adj|
    requires forall j :: 0 <= j < |undos| ==> i < |undos[j].adj|
    ensures SumAdj(undos[u := n], i) == SumAdj(undos, i) - undos[u].adj[i] + n.adj[i]
  {
    if u == 0 {
      assert undos[u := n][1..] == undos[1..];
    } else {
      assert undos[u := n][1..] == undos[1..][u - 1 := n];
      SumAdjUpdate(undos[1..], u - 1, n, i);
    }
  }

  /** A semop moves a total by exactly its operations without SEM_UNDO. */
  lemma {:induction false} ApplyConserves(b: Books, proc: nat, ops: seq<Op>, i: nat)
    requires Shaped(b) && OpsFit(ops, |b.vals|) && i < |b.vals|
    requires UsesUndo(ops) ==> Find(b.undos, proc) >= 0
    ensures Shaped(Apply(b, proc, ops))
    ensures Total(Apply(b, proc, ops), i) == Total(b, i) + Permanent(ops, i, |ops|)
  {
    var u := Find(b.undos, proc);
    if u < 0 {
      NoUndoAllPermanent(b.vals, ops, |ops|, i);
    } else {
      PrefixConserves(b.vals, b.undos[u].adj, ops, |ops|, i);
      SumAdjUpdate(b.undos, u, Undo(proc, Adj(b.undos[u].adj, ops, |ops|)), i);
    }
  }

  // ---- exit, SETVAL, SETALL ----

  /** `alloc_undo`: a fresh structure with no adjustments at the head of the list. */
  function Alloc(b: Books, proc: nat): Books { b.(undos := [Undo(proc, Zeros(|b.vals|))] + b.undos) }

  function Clamp(x: int): int { if x < 0 then 0 else x }

  /** The adjustment loop of `sem_exit`. */
  function Adjusted(v: seq<int>, a: seq<int>): (r: seq<int>)
    requires |a| == |v|
    ensures |r| == |v| && forall i :: 0 <= i < |v| ==> r[i] == Clamp(v[i] + a[i])
  {
    seq(|v|, i requires 0 <= i < |v| => Clamp(v[i] + a[i]))
  }

  function Exit(b: Books, proc: nat): Books
    requires Shaped(b)
  {
    var u := Find(b.undos, proc);
    if u < 0 then b
    else Books(Adjusted(b.vals, b.undos[u].adj), b.undos[..u] + b.undos[u + 1..])
  }

  function ClearOne(undos: seq<Undo>, num: nat): (r: seq<Undo>)
    requires forall j :: 0 <= j < |undos| ==> num < |undos[j].adj|
    ensures |r| == |undos|
    ensures forall j :: 0 <= j < |undos| ==> r[j] == undos[j].(adj := undos[j].adj[num := 0])
  {
    seq(|undos|, j requires 0 <= j < |undos| => undos[j].(adj := undos[j].adj[num := 0]))
  }

  function ClearAll(undos: seq<Undo>, n: nat): (r: seq<Undo>)
    ensures |r| == |undos| && forall j :: 0 <= j < |undos| ==> r[j] == undos[j].(adj := Zeros(n))
  {
    seq(|undos|, j requires 0 <= j < |undos| => undos[j].(adj := Zeros(n)))
  }

  function SetVal(b: Books, num: nat, val: int): Books
    requires Shaped(b) && num < |b.vals|
  {
    Books(b.vals[num := val], ClearOne(b.undos, num))
  }

  function SetAll(b: Books, vals: seq<int>): Books { Books(vals, ClearAll(b.undos, |vals|)) }

  lemma {:induction false} SumAdjRemove(undos: seq<Undo>, u: nat, i: nat)
    requires u < |undos| && forall j :: 0 <= j < |undos| ==> i < |undos[j].adj|
    ensures SumAdj(undos[..u] + undos[u + 1..], i) == SumAdj(undos, i) - undos[u].adj[i]
  {
    var r := undos[..u] + undos[u + 1..];
    if u == 0 {
      assert r == undos[1..];
    } else {
      assert r[1..] == undos[1..][..u - 1] + undos[1..][u..];
      SumAdjRemove(undos[1..], u - 1, i);
    }
  }

  /** An exit gives back what is registered: the total stays, unless the value would go
      below zero and is cut off there. */
  lemma {:induction false} ExitConserves(b: Books, proc: nat, i: nat)
    requires Shaped(b) && i < |b.vals|
    ensures Shaped(Exit(b, proc))
    ensures var short := b.vals[i] + (if Find(b.undos, proc) < 0 then 0 else b.undos[Find(b.undos, proc)].adj[i]);
      Total(Exit(b, proc), i) == Total(b, i) + (if Find(b.undos, proc) >= 0 && short < 0 then -short else 0)
  {
    var u := Find(b.undos, proc);
    if u >= 0 { SumAdjRemove(b.undos, u, i); }
  }

  lemma {:induction false} SumAdjZero(undos: seq<Undo>, i: nat)
    requires forall j :: 0 <= j < |undos| ==> i < |undos[j].adj| && undos[j].adj[i] == 0
    ensures SumAdj(undos, i) == 0
  {
    if undos != [] { SumAdjZero(undos[1..], i); }
  }

  lemma {:induction false} SumAdjSame(a: seq<Undo>, b: seq<Undo>, i: nat)
    requires |a| == |b| && forall j :: 0 <= j < |a| ==> i < |a[j].adj| && i < |b[j].adj| && a[j].adj[i] == b[j].adj[i]
    ensures SumAdj(a, i) == SumAdj(b, i)
  {
    if a != [] { SumAdjSame(a[1..], b[1..], i); }
  }

  /** After an exit the process has no undo structure, each value is the old one with its adjustment,
      cut off at zero, and everybody else's structure is as it was. */
  lemma {:induction false} ExitGivesBack(b: Books, proc: nat, i: nat)
    requires Shaped(b) && i < |b.vals|
    requires forall j, k :: 0 <= j < k < |b.undos| ==> b.undos[j].proc != b.undos[k].proc
    ensures |Exit(b, proc).vals| == |b.vals|
    ensures forall j :: 0 <= j < |Exit(b, proc).undos| ==> Exit(b, proc).undos[j].proc != proc
    ensures forall u :: u in b.undos && u.proc != proc ==> u in Exit(b, proc).undos
    ensures (forall u :: u in b.undos ==> u.proc != proc) ==> Exit(b, proc) == b
    ensures forall u :: u in b.undos && u.proc == proc ==>
      Exit(b, proc).vals[i] == if b.vals[i] + u.adj[i] < 0 then 0 else b.vals[i] + u.adj[i]
  {
    var u := Find(b.undos, proc);
    if u >= 0 {
      var r := Exit(b, proc).undos;
      forall j | 0 <= j < |r| ensures r[j].proc != proc {
        assert r[j] == b.undos[if j < u then j else j + 1];
      }
      forall x | x in b.undos && x.proc != proc ensures x in r {
        var j :| 0 <= j < |b.undos| && b.undos[j] == x;
        assert r[if j < u then j else j - 1] == x;
      }
    }
  }

  /** SETVAL resets one total to the value given and leaves the others. */
  lemma {:induction false} SetValResets(b: Books, num: nat, val: int, i: nat)
    requires Shaped(b) && num < |b.vals| && i < |b.vals|
    ensures Shaped(SetVal(b, num, val))
    ensures Total(SetVal(b, num, val), i) == if i == num then val else Total(b, i)
  {
    if i == num { SumAdjZero(ClearOne(b.undos, num), i); }
    else { SumAdjSame(ClearOne(b.undos, num), b.undos, i); }
  }

  /** SETALL resets every total. */
  lemma {:induction false} SetAllResets(b: Books, vals: seq<int>, i: nat)
    requires i < |vals|
    ensures Shaped(SetAll(b, vals)) && Total(SetAll(b, vals), i) == vals[i]
  {
    SumAdjZero(ClearAll(b.undos, |vals|), i);
  }
}
