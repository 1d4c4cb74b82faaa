/** Writers and readers of a pipe over whole runs, sleeping in between (fs/pipe.c). */
module PipeRuns {
  import opened Lists
  import opened Pipe

  /** A byte of the stream and the write call it came from. */
  datatype Byte = Byte(value: int, call: nat)

  /** A call of pipe_write: what it has to write and how much it has written. */
  datatype Call = Call(buf: seq<int>, at: nat)

  /** `stream` is all that was ever written; its first `taken` bytes were read. */
  datatype State = State(stream: seq<Byte>, taken: nat, calls: map<nat, Call>)

  datatype Event = Begin(c: nat, buf: seq<int>) | WriterRuns(c: nat) | ReaderRuns(count: nat)

  function Marked(buf: seq<int>, c: nat): (r: seq<Byte>)
    ensures |r| == |buf| && forall i :: 0 <= i < |buf| ==> r[i] == Byte(buf[i], c)
  {
    seq(|buf|, i requires 0 <= i < |buf| => Byte(buf[i], c))
  }

  ghost predicate Step(s: State, e: Event, t: State) {
    match e
    case Begin(c, buf) => c !in s.calls && buf != [] && t == s.(calls := s.calls[c := Call(buf, 0)])
    case WriterRuns(c) =>
      && c in s.calls && s.taken <= |s.stream| <= s.taken + PIPE_SIZE && s.calls[c].at < |s.calls[c].buf|
      && var w := s.calls[c]; var n := Amount(|w.buf|, w.at, |s.stream| - s.taken);
         t == s.(stream := s.stream + Marked(w.buf[w.at..w.at + n], c), calls := s.calls[c := w.(at := w.at + n)])
    case ReaderRuns(count) =>
      s.taken <= |s.stream| && t == s.(taken := s.taken + Least(count, |s.stream| - s.taken))
  }

  /** The bytes of the stream that came from one call. */
  function From(stream: seq<Byte>, c: nat): seq<int> {
    if stream == [] then []
    else
      var n := |stream| - 1;
      if stream[n].call == c then From(stream[..n], c) + [stream[n].value] else From(stream[..n], c)
  }

  /** The call's bytes are in one piece. */
  ghost predicate Together(stream: seq<Byte>, buf: seq<int>, c: nat) {
    exists p :: PieceAt(stream, buf, c, p)
  }

  ghost predicate PieceAt(stream: seq<Byte>, buf: seq<int>, c: nat, p: int) {
    0 <= p <= |stream| - |buf| && stream[p..p + |buf|] == Marked(buf, c)
  }

  ghost predicate CallOk(stream: seq<Byte>, c: nat, w: Call) {
    && w.at <= |w.buf| && From(stream, c) == w.buf[..w.at]
    && (|w.buf| <= PIPE_BUF ==> w.at == 0 || (w.at == |w.buf| && Together(stream, w.buf, c)))
  }

  ghost predicate Inv(s: State) {
    && s.taken <= |s.stream| <= s.taken + PIPE_SIZE
    && (forall c :: c in s.calls ==> CallOk(s.stream, c, s.calls[c]))
    && (forall i :: 0 <= i < |s.stream| ==> s.stream[i].call in s.calls)
  }

  lemma {:induction false} FromMarked(stream: seq<Byte>, buf: seq<int>, c: nat, d: nat)
    ensures From(stream + Marked(buf, c), d) == if c == d then From(stream, d) + buf else From(stream, d)
  {
    var m := Marked(buf, c);
    if buf == [] {
      assert stream + m == stream && From(stream, d) + buf == From(stream, d);
    } else {
      var n := |buf| - 1;
      FromMarked(stream, buf[..n], c, d);
      assert Marked(buf[..n], c) == m[..n];
      assert (stream + m)[..|stream| + n] == stream + m[..n];
      assert (From(stream, d) + buf[..n]) + [buf[n]] == From(stream, d) + buf;
    }
  }

  lemma {:induction false} FromNone(stream: seq<Byte>, c: nat)
    requires forall i :: 0 <= i < |stream| ==> stream[i].call != c
    ensures From(stream, c) == []
  {
    if stream != [] { FromNone(stream[..|stream| - 1], c); }
  }

  lemma {:induction false} StaysTogether(stream: seq<Byte>, more: seq<Byte>, buf: seq<int>, c: nat)
    requires Together(stream, buf, c)
    ensures Together(stream + more, buf, c)
  {
    var p :| PieceAt(stream, buf, c, p);
    assert (stream + more)[p..p + |buf|] == stream[p..p + |buf|];
    assert PieceAt(stream + more, buf, c, p);
  }

  lemma {:induction false} WriterKeepsCall(s: State, c: nat, t: State, d: nat)
    requires Inv(s) && Step(s, WriterRuns(c), t) && d in s.calls
    ensures CallOk(t.stream, d, t.calls[d])
  {
    hide From, Together;
    var w := s.calls[c];
    var n := Amount(|w.buf|, w.at, |s.stream| - s.taken);
    var more := w.buf[w.at..w.at + n];
    FromMarked(s.stream, more, c, d);
    assert CallOk(s.stream, d, s.calls[d]) && CallOk(s.stream, c, w);
    if d == c {
      assert w.buf[..w.at] + more == w.buf[..w.at + n];
      if |w.buf| <= PIPE_BUF && n > 0 {
        assert more == w.buf;
        NewTogether(s.stream, w.buf, c);
      }
    } else if Together(s.stream, s.calls[d].buf, d) {
      StaysTogether(s.stream, Marked(more, c), s.calls[d].buf, d);
    }
  }

  lemma {:induction false} NewTogether(stream: seq<Byte>, buf: seq<int>, c: nat)
    ensures Together(stream + Marked(buf, c), buf, c)
  {
    assert (stream + Marked(buf, c))[|stream|..|stream| + |buf|] == Marked(buf, c);
    assert PieceAt(stream + Marked(buf, c), buf, c, |stream|);
  }

  lemma {:induction false} StepKeepsInv(s: State, e: Event, t: State)
    requires Inv(s) && Step(s, e, t)
    ensures Inv(t)
  {
    hide CallOk;
    match e
    case Begin(c, buf) =>
      FromNone(s.stream, c);
      assert CallOk(t.stream, c, t.calls[c]) by { NewCall(s.stream, c, buf); }
    case WriterRuns(c) =>
      forall d | d in t.calls ensures CallOk(t.stream, d, t.calls[d]) { WriterKeepsCall(s, c, t, d); }
    case ReaderRuns(count) =>
  }

  lemma {:induction false} NewCall(stream: seq<Byte>, c: nat, buf: seq<int>)
    requires From(stream, c) == []
    ensures CallOk(stream, c, Call(buf, 0))
  {}

  ghost predicate IsRun(run: seq<State>, events: seq<Event>) {
    && |run| == |events| + 1 && run[0] == State([], 0, map[])
    && forall i :: 0 <= i < |events| ==> Step(run[i], events[i], run[i + 1])
  }

  /** In every run the bytes of each write call are in the stream once, in order and as far as the
      call has come, and a call of up to PIPE_BUF bytes has written nothing or all of them in one
      piece. What is read is the stream, from its beginning. */
  lemma {:induction false} RunKeepsInv(run: seq<State>, events: seq<Event>, k: nat)
    requires IsRun(run, events) && k < |run|
    ensures Inv(run[k])
  {
    if k > 0 {
      RunKeepsInv(run, events, k - 1);
      StepKeepsInv(run[k - 1], events[k - 1], run[k]);
    }
  }

  /** Room is used. When a writer runs, a small write with room for all of it goes into the stream as
      a whole, and one without leaves everything as it is; a large one puts in as much as there is
      room for. */
  lemma {:induction false} RoomIsUsed(run: seq<State>, events: seq<Event>, k: nat, c: nat)
    requires IsRun(run, events) && k < |events| && events[k] == WriterRuns(c)
    ensures c in run[k].calls && run[k].calls[c].at < |run[k].calls[c].buf| && run[k].taken <= |run[k].stream|
    ensures |run[k].stream| - run[k].taken <= PIPE_SIZE
    ensures var (s, t) := (run[k], run[k + 1]); var (buf, at) := (s.calls[c].buf, s.calls[c].at);
      var room := PIPE_SIZE - (|s.stream| - s.taken);
      && (|buf| <= PIPE_BUF && |buf| <= room ==>
            t.stream == s.stream + Marked(buf, c) && Together(t.stream, buf, c) &&
              t.calls == s.calls[c := Call(buf, |buf|)])
      && (|buf| <= PIPE_BUF && |buf| > room ==> t == s)
      && (|buf| > PIPE_BUF ==>
            var n := Least(|buf| - at, room);
            t.stream == s.stream + Marked(buf[at..at + n], c) && t.calls == s.calls[c := Call(buf, at + n)])
      && t.taken == s.taken
  {
    RunKeepsInv(run, events, k);
    var (s, t) := (run[k], run[k + 1]);
    assert Step(s, events[k], t) && CallOk(s.stream, c, s.calls[c]);
    hide From;
    var w := s.calls[c];
    if |w.buf| <= PIPE_BUF {
      NewTogether(s.stream, w.buf, c);
      assert w.buf[0..|w.buf|] == w.buf && s.stream + Marked(w.buf[0..0], c) == s.stream;
      assert s.calls[c := Call(w.buf, 0)] == s.calls;
    }
  }

  lemma {:induction false} SmallWritesAreWhole(run: seq<State>, events: seq<Event>, k: nat, c: nat)
    requires IsRun(run, events) && k < |run| && c in run[k].calls && |run[k].calls[c].buf| <= PIPE_BUF
    ensures var buf, s := run[k].calls[c].buf, run[k].stream;
      From(s, c) == [] || (From(s, c) == buf && Together(s, buf, c))
  {
    RunKeepsInv(run, events, k);
    var w := run[k].calls[c];
    assert CallOk(run[k].stream, c, w);
    assert w.buf[..|w.buf|] == w.buf && w.buf[..0] == [];
  }

  // ---- the ring buffer takes these steps ----

  /** The ring buffer holds the part of the stream that was not read yet. */
  ghost predicate Agrees(r: Ring, s: State)
    reads r, r.base
  {
    && r.Valid() && s.taken == |r.consumed| && |r.produced| == |s.stream|
    && forall i :: 0 <= i < |s.stream| ==> r.produced[i] == s.stream[i].value
  }

  /** A writer inside the semaphore takes its step; without readers it writes nothing. */
  method WriterStep(r: Ring, c: nat, buf: seq<int>, at: nat, nonblock: bool, ghost s: State)
    returns (n: nat, end: WriteEnd, ghost t: State)
    requires Inv(s) && Agrees(r, s) && c in s.calls && s.calls[c] == Call(buf, at) && at < |buf|
    modifies r, r.base
    ensures Agrees(r, t) && (end == NoReaders <==> old(r.readers) == 0)
    ensures if end == NoReaders then t == s && n == 0 else Step(s, WriterRuns(c), t) && t.calls[c].at == at + n
    ensures end == WriteDone && !nonblock ==> at + n == |buf|
    ensures end != NoReaders && |buf| <= PIPE_BUF ==>
      n == if |buf| <= PIPE_SIZE - (|s.stream| - s.taken) then |buf| else 0
    ensures end != NoReaders && |buf| > PIPE_BUF ==> n == Least(|buf| - at, PIPE_SIZE - (|s.stream| - s.taken))
  {
    hide From, Together, Ring.Contents;
    assert CallOk(s.stream, c, s.calls[c]);
    ghost var before := r.produced;
    n, end := r.WriteSection(buf, at, nonblock);
    if end == NoReaders {
      assert before + buf[at..at] == before;
      return n, end, s;
    }
    ghost var more := buf[at..at + n];
    t := s.(stream := s.stream + Marked(more, c), calls := s.calls[c := Call(buf, at + n)]);
    forall i | 0 <= i < |t.stream| ensures (before + more)[i] == t.stream[i].value {}
  }

  /** A reader inside the semaphore gets the next bytes of the stream. */
  method ReaderStep(r: Ring, count: nat, nonblock: bool, waitingWriters: nat, ghost s: State)
    returns (data: seq<int>, end: ReadEnd, ghost t: State)
    requires Inv(s) && Agrees(r, s) && count > 0
    modifies r, r.base
    ensures Step(s, ReaderRuns(count), t) && Agrees(r, t)
    ensures |data| == t.taken - s.taken && forall i :: 0 <= i < |data| ==> data[i] == s.stream[s.taken + i].value
  {
    ghost var inside := r.Contents();
    data, end := r.ReadSection(count, nonblock, waitingWriters);
    t := s.(taken := s.taken + |data|);
    forall i | 0 <= i < |data| ensures data[i] == s.stream[s.taken + i].value {
      assert data[i] == inside[i] && r.produced[s.taken + i] == inside[i];
    }
  }
}
