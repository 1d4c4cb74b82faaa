/** The semaphore set as the kernel keeps it (ipc/sem.c): values, undo structures and queue are
    changed in place, and each call is shown to be a step of `SemRuns`. */
module SemArray {
  import opened Lists
  import opened SemOps
  import opened SemRuns

  /** The undo list with the adjustments of structure `un` replaced. */
  function SetAdj(undos: seq<Undo>, un: int, a: seq<int>): seq<Undo>
    requires -1 <= un < |undos|
  {
    if un < 0 then undos else undos[un := undos[un].(adj := a)]
  }

  ghost predicate SameButUndo(ops: seq<Op>, sops: seq<Op>) {
    |sops| == |ops| && forall k :: 0 <= k < |ops| ==>
      sops[k].num == ops[k].num && sops[k].op == ops[k].op && (sops[k].undo ==> ops[k].undo)
  }

  lemma {:induction false} ValsIgnoreUndo(v: seq<int>, ops: seq<Op>, sops: seq<Op>, k: nat)
    requires SameButUndo(ops, sops) && OpsFit(ops, |v|) && k <= |ops|
    ensures Vals(v, sops, k) == Vals(v, ops, k)
  {
    if k > 0 { ValsIgnoreUndo(v, ops, sops, k - 1); }
  }

  lemma {:induction false} AdjPrefix(a: seq<int>, ops: seq<Op>, sops: seq<Op>, k: nat)
    requires OpsFit(ops, |a|) && OpsFit(sops, |a|) && k <= |ops| && k <= |sops| && sops[..k] == ops[..k]
    ensures Adj(a, sops, k) == Adj(a, ops, k)
  {
    if k > 0 {
      assert sops[..k][..k - 1] == ops[..k][..k - 1] && sops[..k][k - 1] == ops[..k][k - 1];
      AdjPrefix(a, ops, sops, k - 1);
    }
  }

  lemma {:induction false} NoUndoSameAdj(a: seq<int>, ops: seq<Op>, k: nat)
    requires OpsFit(ops, |a|) && k <= |ops| && !UsesUndo(ops)
    ensures Adj(a, ops, k) == a
  {
    if k > 0 {
      assert !ops[k - 1].undo;
      NoUndoSameAdj(a, ops, k - 1);
    }
  }

  lemma {:induction false} BumpBack(v: seq<int>, i: nat, d: int)
    requires i < |v|
    ensures Bump(v, i, d)[i := Bump(v, i, d)[i] - d] == v
  {}

  lemma {:induction false} SomeUndo(ops: seq<Op>, k: nat)
    requires k < |ops|
    ensures ops[k].undo ==> UsesUndo(ops)
  {}

  lemma {:induction false} TryAt(v: seq<int>, a: seq<int>, ops: seq<Op>, k: nat)
    requires k <= |ops| && OpsFit(ops, |v|) && |a| == |v|
    ensures Try(v, a, ops, k) ==
      if k == |ops| then 0
      else match OpVerdict(v, a, ops, k)
        case Fine => Try(v, a, ops, k + 1)
        case Blocks => if ops[k].nowait then EAGAIN else 1
        case Range => ERANGE
  {}

  lemma {:induction false} Untouched(v: seq<int>, a: seq<int>, ops: seq<Op>, u0: seq<Undo>, proc: nat)
    requires OpsFit(ops, |v|) && Shaped(Books(v, u0)) && a == AdjOf(Books(v, u0), proc)
    ensures |a| == |v| && Vals(v, ops, 0) == v && SetAdj(u0, Find(u0, proc), Adj(a, ops, 0)) == u0
  {}

  /** One operation more, as the loop makes it. */
  lemma {:induction false} OneOp(v: seq<int>, a: seq<int>, ops: seq<Op>, k: nat, u0: seq<Undo>, un: int)
    requires k < |ops| && OpsFit(ops, |v|) && |a| == |v| && -1 <= un < |u0| && (ops[k].undo ==> un >= 0)
    ensures Vals(v, ops, k + 1) == Bump(Vals(v, ops, k), ops[k].num, ops[k].op)
    ensures ops[k].op == 0 ==> Vals(v, ops, k + 1) == Vals(v, ops, k)
    ensures !ops[k].undo || ops[k].op == 0 ==> Adj(a, ops, k + 1) == Adj(a, ops, k)
    ensures ops[k].undo ==>
      var u := SetAdj(u0, un, Adj(a, ops, k));
      && |u| == |u0| && u[un].adj == Adj(a, ops, k)
      && SetAdj(u0, un, Adj(a, ops, k + 1)) == u[un := u[un].(adj := Bump(Adj(a, ops, k), ops[k].num, -ops[k].op))]
  {
    var w := Vals(v, ops, k);
    assert w[ops[k].num := w[ops[k].num] + 0] == w;
    var d := Adj(a, ops, k);
    assert d[ops[k].num := d[ops[k].num] - 0] == d;
  }

  /** What a step hands to the caller: its return code as it was recorded, or nothing while the
      call sleeps. */
  ghost predicate HandedOut(was: seq<Return>, now: seq<Return>, call: nat, code: Option<int>) {
    match code
    case None => now == was
    case Some(r) => |now| == |was| + 1 && now[..|was|] == was && now[|was|].call == call && now[|was|].code == r
  }

  /** The call went to sleep: at the tail of the queue if its list can change a value, at the head if
      it only waits for zero. */
  ghost predicate Queued(was: seq<Sleeper>, now: seq<Sleeper>, proc: nat, call: nat, ops: seq<Op>) {
    exists q: Sleeper ::
      && q.proc == proc && q.call == call && q.ops == ops && q.status == EINTR
      && (q.alter <==> exists k :: 0 <= k < |ops| && ops[k].op != 0)
      && (q.decrease <==> exists k :: 0 <= k < |ops| && ops[k].op < 0)
      && now == if q.alter then was + [q] else [q] + was
  }

  lemma {:induction false} IsQueued(was: seq<Sleeper>, now: seq<Sleeper>, q: Sleeper)
    requires q.alter == Alters(q.ops) && q.decrease == Decreases(q.ops) && q.status == EINTR
    requires now == if q.alter then was + [q] else [q] + was
    ensures Queued(was, now, q.proc, q.call, q.ops)
  {}

  /** A fresh undo structure does not change the verdict. */
  lemma {:induction false} NoUndoYet(b: Books, proc: nat, ops: seq<Op>)
    requires Shaped(b) && OpsFit(ops, |b.vals|) && Find(b.undos, proc) < 0
    ensures Shaped(Alloc(b, proc)) && TryOps(Alloc(b, proc), proc, ops) == TryOps(b, proc, ops)
  {}

  class SemSet {
    var alive: bool
    var semval: seq<int>
    var undos: seq<Undo>
    var pending: seq<Sleeper>
    var released: seq<Sleeper>
    var nextCall: nat
    ghost var log: seq<Action>
    ghost var returned: seq<Return>

    ghost function B(): Books
      reads this
    {
      Books(semval, undos)
    }

    ghost function St(): State
      reads this
    {
      State(alive, B(), pending, released, log, returned, nextCall)
    }

    constructor (nsems: nat)
      ensures St() == Initial(nsems)
    {
      alive, semval, undos, pending, released, nextCall := true, Zeros(nsems), [], [], [], 0;
      log, returned := [], [];
    }

    /** The forward loop of `try_atomic_semop`. It stops after the last operation, or at one that
        cannot be done, which may already have changed its value. */
    method Forward(proc: nat, ops: seq<Op>, un: int) returns (k: nat, sops: seq<Op>, result: int)
      requires Shaped(B()) && OpsFit(ops, |semval|) && un == Find(undos, proc) && (UsesUndo(ops) ==> un >= 0)
      modifies this`semval, this`undos
      ensures k <= |ops| && SameButUndo(ops, sops) && result == TryOps(old(B()), proc, ops)
      ensures (k == |ops| <==> result == 0) && (k == |ops| ==> sops == ops)
      ensures var m := if k == |ops| then k else k + 1; var v, a := old(semval), AdjOf(old(B()), proc);
        semval == Vals(v, sops, m) && |a| == |v| && undos == SetAdj(old(undos), un, Adj(a, sops, m))
    {
      hide Try, Find, UsesUndo, Vals, Adj, SetAdj;
      ghost var v, a, u0 := semval, AdjOf(B(), proc), undos;
      k, sops := 0, ops;
      Untouched(v, a, ops, u0, proc);
      while k < |sops|
        invariant k <= |ops| && sops == ops
        invariant semval == Vals(v, ops, k) && undos == SetAdj(u0, un, Adj(a, ops, k))
        invariant Try(v, a, ops, k) == Try(v, a, ops, 0)
      {
        var op := sops[k];
        TryAt(v, a, ops, k);
        SomeUndo(ops, k);
        OneOp(v, a, ops, k, u0, un);
        if op.op == 0 && semval[op.num] != 0 {
          result := if op.nowait then EAGAIN else 1;
          return;
        }
        semval := semval[op.num := semval[op.num] + op.op];
        if op.undo {
          var undo := undos[un].adj[op.num] - op.op;
          if undo < -SEMAEM - 1 || undo > SEMAEM {
            // Do not undo what was not registered.
            sops := sops[k := op.(undo := false)];
            result := ERANGE;
            ValsIgnoreUndo(v, ops, sops, k + 1);
            AdjPrefix(a, ops, sops, k);
            OneOp(v, a, sops, k, u0, un);
            return;
          }
          undos := undos[un := undos[un].(adj := undos[un].adj[op.num := undo])];
        }
        if semval[op.num] < 0 {
          result := if op.nowait then EAGAIN else 1;
          return;
        }
        if semval[op.num] > SEMVMX {
          result := ERANGE;
          return;
        }
        k := k + 1;
      }
      TryAt(v, a, ops, k);
      result := 0;
    }

    /** The undo loop of `try_atomic_semop`, from operation `k` back to the first. */
    method Rollback(sops: seq<Op>, k: int, un: int, ghost v: seq<int>, ghost a: seq<int>, ghost u0: seq<Undo>)
      requires -1 <= k < |sops| && OpsFit(sops, |v|) && |a| == |v| && -1 <= un < |u0|
      requires semval == Vals(v, sops, k + 1) && undos == SetAdj(u0, un, Adj(a, sops, k + 1))
      requires forall j :: 0 <= j <= k && sops[j].undo ==> un >= 0
      modifies this`semval, this`undos
      ensures semval == v && undos == SetAdj(u0, un, a)
    {
      var j := k;
      while j >= 0
        invariant -1 <= j <= k
        invariant semval == Vals(v, sops, j + 1) && undos == SetAdj(u0, un, Adj(a, sops, j + 1))
      {
        var op := sops[j];
        BumpBack(Vals(v, sops, j), op.num, op.op);
        BumpBack(Adj(a, sops, j), op.num, -op.op);
        semval := semval[op.num := semval[op.num] - op.op];
        if op.undo {
          assert undos[un].adj == Bump(Adj(a, sops, j), op.num, -op.op);
          undos := undos[un := undos[un].(adj := undos[un].adj[op.num := undos[un].adj[op.num] + op.op])];
        }
        j := j - 1;
      }
    }

    /** `try_atomic_semop`: all of the operations, or none of them. With `doUndo` it only asks. */
    method TryAtomicSemop(proc: nat, ops: seq<Op>, doUndo: bool) returns (result: int)
      requires Shaped(B()) && OpsFit(ops, |semval|) && (UsesUndo(ops) ==> Find(undos, proc) >= 0)
      modifies this`semval, this`undos
      ensures result == TryOps(old(B()), proc, ops)
      ensures B() == if result == 0 && !doUndo then Apply(old(B()), proc, ops) else old(B())
      ensures |AdjOf(old(B()), proc)| == |old(semval)|
      ensures result in {0, 1, EAGAIN, ERANGE}
      ensures result != 0 ==> exists k: nat :: FirstObstacle(old(semval), AdjOf(old(B()), proc), ops, k)
      ensures var v, a := old(semval), AdjOf(old(B()), proc);
        forall k :: 0 <= k < |ops| && (result == 0 || ObstacleAfter(v, a, ops, k)) ==>
          && (ops[k].op == 0 ==> Vals(v, ops, k)[ops[k].num] == 0)
          && 0 <= Vals(v, ops, k + 1)[ops[k].num] <= SEMVMX
          && (ops[k].undo ==> -SEMAEM - 1 <= Adj(a, ops, k + 1)[ops[k].num] <= SEMAEM)
      ensures var v, a := old(semval), AdjOf(old(B()), proc);
        forall k: nat :: FirstObstacle(v, a, ops, k) ==>
          var op := ops[k];
          var before, after, adj := Vals(v, ops, k)[op.num], Vals(v, ops, k + 1)[op.num], Adj(a, ops, k + 1)[op.num];
          var adjOk := !op.undo || -SEMAEM - 1 <= adj <= SEMAEM;
          && (result == EAGAIN <==> op.nowait && ((op.op == 0 && before != 0) || (adjOk && after < 0)))
          && (result == 1 <==> !op.nowait && ((op.op == 0 && before != 0) || (adjOk && after < 0)))
          && (result == ERANGE <==> !(op.op == 0 && before != 0) && (!adjOk || after > SEMVMX))
    {
      hide Try, Vals, Adj, FirstObstacle, ObstacleAfter;
      TryClear(semval, AdjOf(B(), proc), ops);
      var un := Find(undos, proc);
      ghost var v, a, u0 := semval, AdjOf(B(), proc), undos;
      var k, sops;
      k, sops, result := Forward(proc, ops, un);
      if k == |ops| && !doUndo {
        return;
      }
      var last: int := if k == |ops| then k as int - 1 else k;
      Rollback(sops, last, un, v, a, u0);
    }

    /** `update_queue`: one pass over the queue, serving or waking what can proceed. */
    method UpdatePending()
      requires Ready(St())
      modifies this`semval, this`undos, this`pending, this`released, this`log
      ensures St() == UpdateQueue(old(St()), 0)
    {
      hide TryOps, Apply, OpsFit, UsesUndo, ValsOk, AdjOk, FirstObstacle, Vals, Adj, AdjOf;
      var i := 0;
      while i < |pending|
        invariant Ready(St()) && i <= |pending|
        invariant UpdateQueue(St(), i) == UpdateQueue(old(St()), 0)
        invariant alive == old(alive) && nextCall == old(nextCall) && returned == old(returned)
        decreases |pending| - i
      {
        var q := pending[i];
        if q.status == 1 {
          i := i + 1;
          continue;
        }
        ghost var s := St();
        var error := TryAtomicSemop(q.proc, q.ops, q.decrease);
        if error > 0 {
          i := i + 1;
          continue;
        }
        if error == 0 && q.decrease {
          pending := pending[i := q.(status := 1)];
          return;
        }
        if error == 0 {
          log := log + [Done(q.call, q.proc, q.ops)];
        }
        pending := RemoveAt(pending, i);
        released := released + [q.(status := error)];
        assert St() == Served(s, i);
      }
    }

    /** The end of `sys_semop`, from label `update` on, for a caller whose list was tried in state
        `s` with result `error`. */
    method FinishCall(call: nat, proc: nat, ops: seq<Op>, alter: bool, error: int, ghost s: State)
      requires Ready(s) && CanTry(s, proc, ops) && error == TryOps(s.books, proc, ops) && error <= 0
      requires St() == s.(books := if error == 0 then Apply(s.books, proc, ops) else s.books)
      requires alter <==> Alters(ops)
      modifies this
      ensures St() == Finish(s, call, proc, ops) && HandedOut(old(returned), returned, call, Some(error))
    {
      if error == 0 {
        DoKeepsBooksOk(s.books, Done(call, proc, ops));
        log := log + [Done(call, proc, ops)];
      }
      returned := returned + [Return(call, error, false)];
      assert Ready(St());
      if alter {
        UpdatePending();
      }
    }

    /** `sys_semop` up to its return or its first sleep. */
    method SysSemop(proc: nat, ops: seq<Op>, slotEmpty: bool) returns (code: Option<int>)
      requires Ready(St()) && Enabled(St(), Semop(proc, ops, slotEmpty))
      modifies this
      ensures St() == Next(old(St()), Semop(proc, ops, slotEmpty))
      ensures HandedOut(old(returned), returned, old(nextCall), code)
      ensures |ops| < 1 ==> code == Some(EINVAL)
      ensures |ops| > SEMOPM ==> code == Some(E2BIG)
      ensures 1 <= |ops| <= SEMOPM && !old(alive) ==> code == Some(if slotEmpty then EINVAL else EIDRM)
      ensures 1 <= |ops| <= SEMOPM && old(alive) && (exists k :: 0 <= k < |ops| && ops[k].num >= |old(semval)|) ==>
        code == Some(EFBIG)
      ensures 1 <= |ops| <= SEMOPM && old(alive) && OpsFit(ops, |old(semval)|) ==>
        var r := TryOps(old(B()), proc, ops); code == if r <= 0 then Some(r) else None
      ensures code.None? ==> Queued(old(pending), pending, proc, old(nextCall), ops)
    {
      hide Finish, TryOps, WithUndo, UsesUndo, Alters, Decreases, BooksOk, Queued;
      var call := nextCall;
      nextCall := nextCall + 1;
      var error := 0;
      if |ops| < 1 {
        error := EINVAL;
      } else if |ops| > SEMOPM {
        error := E2BIG;
      } else if !alive {
        error := if slotEmpty then EINVAL else EIDRM;
      } else {
        var fits, undo, decrease, alter := ScanOps(ops, |semval|);
        if !fits {
          error := EFBIG;
        } else {
          code := AttemptOrSleep(call, proc, ops, undo, decrease, alter);
          return;
        }
      }
      returned := returned + [Return(call, error, false)];
      code := Some(error);
    }

    /** The attempt of a call whose list is valid; it returns, or goes to sleep on the queue. */
    method AttemptOrSleep(call: nat, proc: nat, ops: seq<Op>, undo: bool, decrease: bool, alter: bool)
      returns (code: Option<int>)
      requires Ready(St()) && OpsFit(ops, |semval|)
      requires undo == UsesUndo(ops) && decrease == Decreases(ops) && alter == Alters(ops)
      modifies this
      ensures var s1 := WithUndo(old(St()), proc, ops);
        St() == if TryOps(s1.books, proc, ops) <= 0 then Finish(s1, call, proc, ops)
                else var q := Sleeper(proc, call, ops, Alters(ops), Decreases(ops), EINTR);
                     Enqueued(s1, q)
      ensures HandedOut(old(returned), returned, call, code)
      ensures var r := TryOps(old(B()), proc, ops); code == if r <= 0 then Some(r) else None
      ensures code.None? ==> Queued(old(pending), pending, proc, call, ops)
    {
      hide Finish, TryOps, Vals, Adj, FirstObstacle, AdjOf, Queued, OpsFit, UpdateQueue;
      if Find(undos, proc) < 0 { NoUndoYet(B(), proc, ops); }
      if undo && Find(undos, proc) < 0 {
        // alloc_undo
        undos := [Undo(proc, Zeros(|semval|))] + undos;
        log := log + [Alloced(proc)];
      }
      ghost var s := St();
      assert s == WithUndo(old(St()), proc, ops);
      var error := TryAtomicSemop(proc, ops, false);
      if error <= 0 {
        FinishCall(call, proc, ops, alter, error, s);
        code := Some(error);
      } else {
        var q := Sleeper(proc, call, ops, alter, decrease, EINTR);
        pending := if alter then pending + [q] else [q] + pending;
        code := None;
        IsQueued(old(pending), pending, q);
      }
    }

    /** A queued sleeper gets the processor back: it retries if told to, else it was interrupted. */
    method SleeperRuns(i: nat) returns (code: Option<int>)
      requires Ready(St()) && i < |pending|
      modifies this
      ensures St() == Next(old(St()), Woken(i))
      ensures HandedOut(old(returned), returned, old(pending[i]).call, code)
      ensures old(pending[i]).status != 1 ==> code == Some(old(pending[i]).status)
      ensures old(pending[i]).status == 1 ==>
        var q := old(pending[i]);
        var r := TryOps(old(B()), q.proc, q.ops);
        && (r <= 0 ==> code == Some(r))
        && (r > 0 ==> code == None && St() == old(St()).(pending := old(pending)[i := q.(status := EINTR)]))
    {
      var q := pending[i];
      ghost var s := St();
      if q.status == 1 {
        var error := TryAtomicSemop(q.proc, q.ops, false);
        if error > 0 {
          pending := pending[i := q.(status := EINTR)];
          code := None;
        } else {
          pending := RemoveAt(pending, i);
          var alter := Alters(q.ops);
          FinishCall(q.call, q.proc, q.ops, alter, error, Drop(s, i));
          code := Some(error);
        }
      } else {
        pending := RemoveAt(pending, i);
        returned := returned + [Return(q.call, q.status, false)];
        code := Some(q.status);
        if Alters(q.ops) {
          UpdatePending();
        }
      }
    }

    /** A released sleeper gets the processor back; `slotEmpty` says what `sem_lock` finds. */
    method ReleasedSleeperRuns(i: nat, slotEmpty: bool) returns (code: int)
      requires Ready(St()) && i < |released|
      modifies this`released, this`returned
      ensures St() == Next(old(St()), ReleasedRuns(i, slotEmpty))
      ensures HandedOut(old(returned), returned, old(released[i]).call, Some(code))
      ensures code == if !alive && slotEmpty then EIDRM else old(released[i]).status
    {
      var q := released[i];
      released := RemoveAt(released, i);
      code := if !alive && slotEmpty then EIDRM else q.status;
      returned := returned + [Return(q.call, code, !alive && slotEmpty && q.status == 0)];
    }

    /** SETVAL in `semctl_main`. */
    method CtlSetVal(num: int, val: int) returns (err: int)
      requires Ready(St()) && alive
      modifies this
      ensures err == 0 <==> 0 <= num < |old(semval)| && 0 <= val <= SEMVMX
      ensures err == EINVAL <==> num < 0 || num >= |old(semval)|
      ensures err == ERANGE <==> 0 <= num < |old(semval)| && (val < 0 || val > SEMVMX)
      ensures err == 0 ==> St() == Next(old(St()), ValueSet(num, val))
      ensures err != 0 ==> St() == old(St())
    {
      if num < 0 || num >= |semval| {
        return EINVAL;
      }
      if val > SEMVMX || val < 0 {
        return ERANGE;
      }
      DoKeepsBooksOk(B(), ValSet(num, val));
      undos := ClearColumn(undos, num);
      semval := semval[num := val];
      log := log + [ValSet(num, val)];
      UpdatePending();
      return 0;
    }

    /** SETALL in `semctl_main`. */
    method CtlSetAll(vals: seq<int>) returns (err: int)
      requires Ready(St()) && alive && |vals| == |semval| && forall i :: 0 <= i < |vals| ==> 0 <= vals[i]
      modifies this
      ensures err == 0 <==> forall i :: 0 <= i < |vals| ==> vals[i] <= SEMVMX
      ensures err != 0 ==> err == ERANGE
      ensures err == 0 ==> St() == Next(old(St()), AllValuesSet(vals))
      ensures err != 0 ==> St() == old(St())
    {
      hide TryOps, Apply, Find, OpsFit, UsesUndo, UpdateQueue;
      var i := 0;
      while i < |vals|
        invariant 0 <= i <= |vals| && forall j :: 0 <= j < i ==> vals[j] <= SEMVMX
      {
        if vals[i] > SEMVMX {
          return ERANGE;
        }
        i := i + 1;
      }
      DoKeepsBooksOk(B(), AllSet(vals));
      semval := vals;
      undos := ClearAll(undos, |vals|);
      log := log + [AllSet(vals)];
      UpdatePending();
      return 0;
    }

    /** `freeary`. */
    method FreeArray()
      requires Ready(St()) && alive
      modifies this
      ensures St() == Next(old(St()), Removed)
      ensures !alive && pending == [] && |released| == |old(released)| + |old(pending)| && old(released) <= released
      ensures forall i :: 0 <= i < |old(pending)| ==>
        released[|old(released)| + i] == old(pending)[i].(status := EIDRM)
    {
      var i := 0;
      while i < |pending|
        invariant 0 <= i <= |pending|
        invariant released == old(released) + Failed(pending[..i])
        invariant St() == old(St()).(released := released)
      {
        assert Failed(pending[..i + 1]) == Failed(pending[..i]) + [pending[i].(status := EIDRM)];
        released := released + [pending[i].(status := EIDRM)];
        i := i + 1;
      }
      assert pending[..i] == pending;
      pending := [];
      alive := false;
    }

    /** The adjustments of an exiting process in `sem_exit`; it is no longer queued. */
    method ExitAdjust(proc: nat)
      requires Ready(St()) && Enabled(St(), ExitAdjusts(proc))
      modifies this
      ensures St() == Next(old(St()), ExitAdjusts(proc))
    {
      hide Find, Apply, TryOps;
      var u := Find(undos, proc);
      if u < 0 {
        return;
      }
      DoKeepsBooksOk(B(), Exited(proc));
      var vals := Adjust(semval, undos[u].adj);
      semval, undos := vals, undos[..u] + undos[u + 1..];
      log := log + [Exited(proc)];
      UpdatePending();
    }
  }

  /** The loop of `sem_exit` over the values; none goes below zero. */
  method Adjust(semval: seq<int>, adj: seq<int>) returns (vals: seq<int>)
    requires |adj| == |semval|
    ensures vals == Adjusted(semval, adj)
  {
    vals := semval;
    var i := 0;
    while i < |vals|
      invariant 0 <= i <= |vals| == |semval|
      invariant forall j :: 0 <= j < i ==> vals[j] == Clamp(semval[j] + adj[j])
      invariant forall j :: i <= j < |vals| ==> vals[j] == semval[j]
    {
      var v := vals[i] + adj[i];
      if v < 0 {
        v := 0;
      }
      vals := vals[i := v];
      i := i + 1;
    }
  }

  /** The validation loop of `sys_semop`. */
  method ScanOps(ops: seq<Op>, n: nat) returns (fits: bool, undo: bool, decrease: bool, alter: bool)
    ensures fits == OpsFit(ops, n)
    ensures fits ==> undo == UsesUndo(ops) && decrease == Decreases(ops) && alter == Alters(ops)
  {
    undo, decrease, alter := false, false, false;
    var i := 0;
    while i < |ops|
      invariant 0 <= i <= |ops| && OpsFit(ops[..i], n)
      invariant undo <==> exists k :: 0 <= k < i && ops[k].undo
      invariant decrease <==> exists k :: 0 <= k < i && ops[k].op < 0
      invariant alter <==> exists k :: 0 <= k < i && ops[k].op > 0
    {
      if ops[i].num >= n {
        return false, undo, decrease, alter;
      }
      if ops[i].undo {
        undo := true;
      }
      if ops[i].op < 0 {
        decrease := true;
      }
      if ops[i].op > 0 {
        alter := true;
      }
      i := i + 1;
    }
    assert ops[..i] == ops;
    alter := alter || decrease;
    fits := true;
  }

  /** The loop of SETVAL over the undo structures. */
  method ClearColumn(undos: seq<Undo>, num: nat) returns (r: seq<Undo>)
    requires forall j :: 0 <= j < |undos| ==> num < |undos[j].adj|
    ensures r == ClearOne(undos, num)
  {
    r := undos;
    var j := 0;
    while j < |r|
      invariant 0 <= j <= |r| == |undos|
      invariant forall k :: 0 <= k < j ==> r[k] == undos[k].(adj := undos[k].adj[num := 0])
      invariant forall k :: j <= k < |r| ==> r[k] == undos[k]
    {
      r := r[j := r[j].(adj := r[j].adj[num := 0])];
      j := j + 1;
    }
  }
}
