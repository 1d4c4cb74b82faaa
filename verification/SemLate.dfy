/** A run in which a semop is done and nevertheless returns EIDRM (ipc/sem.c): a sleeper that
    waits for zero and then adds one is served while it sleeps, the set is removed, and the
    sleeper wakes to an empty identifier slot. */
module SemLate {
  import opened SemOps
  import opened SemRuns

  const UP := [Op(0, 1, false, false)]
  const WAITS := [Op(0, 0, false, false), Op(0, 1, false, false)]
  const DOWN := [Op(0, -1, false, false)]

  const ZERO := Books([0], [])
  const ONE := Books([1], [])
  const QUEUED := Sleeper(1, 1, WAITS, true, false, EINTR)
  const SERVED := Sleeper(1, 1, WAITS, true, false, 0)

  const LOG1 := [Done(0, 2, UP)]
  const LOG2 := LOG1 + [Done(2, 2, DOWN)]
  const LOG3 := LOG2 + [Done(1, 1, WAITS)]
  const RET1 := [Return(0, 0, false)]
  const RET2 := RET1 + [Return(2, 0, false)]

  const S0 := State(true, ZERO, [], [], [], [], 0)
  const S1 := State(true, ONE, [], [], LOG1, RET1, 1)
  const S2 := State(true, ONE, [QUEUED], [], LOG1, RET1, 2)
  const S3 := State(true, ONE, [], [SERVED], LOG3, RET2, 3)
  const S4 := State(false, ONE, [], [SERVED], LOG3, RET2, 3)
  const S5 := State(false, ONE, [], [], LOG3, RET2 + [Return(1, EIDRM, true)], 3)

  lemma {:induction false} Tries()
    ensures TryOps(ZERO, 2, UP) == 0 && Apply(ZERO, 2, UP) == ONE
    ensures TryOps(ONE, 1, WAITS) == 1
    ensures TryOps(ONE, 2, DOWN) == 0 && Apply(ONE, 2, DOWN) == ZERO
    ensures TryOps(ZERO, 1, WAITS) == 0 && Apply(ZERO, 1, WAITS) == ONE
  {
    assert Vals([0], UP, 0) == [0] && Vals([0], UP, 1) == [1];
    TryZero([0], Zeros(1), UP, 0);
    assert Vals([1], DOWN, 0) == [1] && Vals([1], DOWN, 1) == [0];
    TryZero([1], Zeros(1), DOWN, 0);
    assert Vals([0], WAITS, 0) == [0] && Vals([0], WAITS, 1) == [0] && Vals([0], WAITS, 2) == [1];
    TryZero([0], Zeros(1), WAITS, 0);
    assert OpVerdict([1], Zeros(1), WAITS, 0) == Blocks;
  }

  lemma {:induction false} Flags()
    ensures Alters(UP) && Alters(WAITS) && Alters(DOWN) && Decreases(DOWN) && !Decreases(WAITS)
    ensures !UsesUndo(UP) && !UsesUndo(WAITS) && !UsesUndo(DOWN)
    ensures OpsFit(UP, 1) && OpsFit(WAITS, 1) && OpsFit(DOWN, 1)
    ensures BooksOk(ZERO) && BooksOk(ONE) && Ready(S0) && Ready(S1) && Ready(S2) && Ready(S3) && Ready(S4)
    ensures Initial(1) == S0
  {
    assert UP[0].op != 0 && WAITS[1].op != 0 && DOWN[0].op < 0;
    assert Zeros(1) == [0];
  }

  /** The value goes to one ... */
  lemma {:induction false} First()
    ensures Ready(S0) && Next(S0, Semop(2, UP, false)) == S1
  {
    hide TryOps, Apply, BooksOk, UsesUndo, Alters, OpsFit;
    Tries();
    Flags();
    assert [] + LOG1 == LOG1 && [] + RET1 == RET1;
  }

  /** ... a process sleeps until it is zero ... */
  lemma {:induction false} Second()
    ensures Ready(S1) && Next(S1, Semop(1, WAITS, false)) == S2
  {
    hide TryOps, Apply, BooksOk, UsesUndo, Alters, OpsFit, Decreases;
    Tries();
    Flags();
    assert [] + [QUEUED] == [QUEUED];
  }

  /** ... and is served when another takes it down. */
  lemma {:induction false} Third()
    ensures Ready(S2) && Next(S2, Semop(2, DOWN, false)) == S3
  {
    hide TryOps, Apply, BooksOk, UsesUndo, Alters, OpsFit, Decreases;
    Tries();
    Flags();
    var t := State(true, ZERO, [QUEUED], [], LOG2, RET2, 3);
    assert Ready(t) && QueueTry(t, 0) == 0;
    assert RemoveAt([QUEUED], 0) == [];
    assert [] + [SERVED] == [SERVED];
    assert Served(t, 0) == S3;
    assert UpdateQueue(t, 0) == UpdateQueue(S3, 0) == S3;
    assert Finish(S2.(nextCall := 3), 2, 2, DOWN) == UpdateQueue(t, 0);
  }

  /** The set is removed and the served sleeper wakes to an empty slot. */
  lemma {:induction false} Fourth()
    ensures Ready(S3) && Ready(S4) && Next(S3, Removed) == S4 && Next(S4, ReleasedRuns(0, true)) == S5
  {
    hide BooksOk;
    Flags();
    assert Failed([]) == [] && [SERVED] + [] == [SERVED];
    assert RemoveAt([SERVED], 0) == [];
  }

  lemma {:induction false} CountOne()
    ensures Count(LOG3, 1) == 1
  {
    CountAppend(LOG2, Done(1, 1, WAITS), 1);
    CountAppend(LOG1, Done(2, 2, DOWN), 1);
    CountAppend([], Done(0, 2, UP), 1);
    assert [] + LOG1 == LOG1;
  }

  lemma {:induction false} LateExample()
    ensures exists states: seq<State>, events: seq<Event>, i: nat ::
      IsRun(1, states, events) && i < |states[|events|].returned|
      && states[|events|].returned[i].code == EIDRM
      && Count(states[|events|].log, states[|events|].returned[i].call) == 1
  {
    hide Ready, Next, Count;
    First();
    Second();
    Third();
    Fourth();
    Flags();
    CountOne();
    var states := [S0, S1, S2, S3, S4, S5];
    var events := [Semop(2, UP, false), Semop(1, WAITS, false), Semop(2, DOWN, false), Removed, ReleasedRuns(0, true)];
    forall i | 0 <= i < |events|
      ensures Ready(states[i]) && Enabled(states[i], events[i]) && states[i + 1] == Next(states[i], events[i])
    {}
    assert IsRun(1, states, events);
    assert states[5].returned[2] == Return(1, EIDRM, true);
  }
}
