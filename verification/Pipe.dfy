/** The pipe ring buffer (fs/pipe.c, include/linux/pipe_fs_i.h). Each method is one stay inside the
    pipe semaphore; sleeping in pipe_wait is the boundary between two. */
module Pipe {
  import opened Lists

  const PIPE_SIZE := 4096
  /** Writes up to this size are atomic. */
  const PIPE_BUF := 4096

  datatype ReadEnd = ReadDone | EndOfFile | ReadAgain | ReadWaits

  datatype WriteEnd = WriteDone | NoReaders | WriteAgain | WriteWaits

  /** Positions count round the buffer. */
  function Around(n: nat): (r: nat)
    requires n < 2 * PIPE_SIZE
    ensures r < PIPE_SIZE && r == n % PIPE_SIZE
  {
    if n < PIPE_SIZE then n else n - PIPE_SIZE
  }

  /** How much a writer with `at` of its `size` bytes written adds to `len` bytes: a small write all
      or nothing, a large one what there is space for. */
  function Amount(size: nat, at: nat, len: nat): (n: nat)
    requires at <= size && len <= PIPE_SIZE
    ensures n <= size - at && n <= PIPE_SIZE - len
  {
    if size > PIPE_BUF then Least(size - at, PIPE_SIZE - len)
    else if at == 0 && size <= PIPE_SIZE - len then size else 0
  }

  /** `len` bytes of a ring, from `start` on. */
  function Window(ring: seq<int>, start: nat, len: nat): (s: seq<int>)
    requires |ring| == PIPE_SIZE && start < PIPE_SIZE && len <= PIPE_SIZE
    ensures |s| == len && forall i :: 0 <= i < len ==> s[i] == ring[Around(start + i)]
  {
    seq(len, i requires 0 <= i < len => ring[Around(start + i)])
  }

  lemma {:induction false} CutTwice(c: seq<int>, n: nat, k: nat)
    requires n + k <= |c|
    ensures c[n..][k..] == c[n + k..] && c[..n] + c[n..][..k] == c[..n + k]
  {}

  lemma {:induction false} CutOnce(a: seq<int>, c: seq<int>, n: nat)
    requires n <= |c|
    ensures a + c == (a + c[..n]) + c[n..]
  {}

  class Ring {
    const base: array<int>
    var start: nat
    var len: nat
    var readers: nat
    var writers: nat
    /** All bytes that ever went in, and all that came out. */
    ghost var produced: seq<int>
    ghost var consumed: seq<int>

    ghost predicate Shape()
      reads this`start, this`len
    {
      base.Length == PIPE_SIZE && start < PIPE_SIZE && len <= PIPE_SIZE
    }

    /** The bytes in the buffer, oldest first. */
    ghost function Contents(): (s: seq<int>)
      requires Shape()
      reads this`start, this`len, base
      ensures |s| == len
    {
      Window(base[..], start, len)
    }

    /** The buffer is a queue: what came out, then what is inside, is what went in. */
    ghost predicate Valid()
      reads this, base
    {
      Shape() && produced == consumed + Contents()
    }

    constructor ()
      ensures Valid() && fresh(base) && len == 0 && readers == 1 && writers == 1 && produced == []
    {
      base := new int[PIPE_SIZE];
      start, len, readers, writers := 0, 0, 1, 1;
      produced, consumed := [], [];
    }

    /** One run of bytes in, up to the physical end of the buffer. */
    method CopyIn(src: seq<int>)
      requires Shape() && 0 < |src| <= PIPE_SIZE - len && |src| <= PIPE_SIZE - Around(start + len)
      modifies this`len, base
      ensures Shape() && len == old(len) + |src| && Contents() == old(Contents()) + src
    {
      var end := Around(start + len);
      forall i | 0 <= i < |src| { base[end + i] := src[i]; }
      len := len + |src|;
      ghost var c := old(Contents()) + src;
      forall i | 0 <= i < len ensures Contents()[i] == c[i] {}
    }

    /** One run of bytes out. */
    method CopyOut(chars: nat) returns (data: seq<int>)
      requires Shape() && 0 < chars <= len && chars <= PIPE_SIZE - start
      modifies this`start, this`len
      ensures Shape() && len == old(len) - chars && data == old(Contents())[..chars]
      ensures Contents() == old(Contents())[chars..]
    {
      ghost var c := Contents();
      data := base[start..start + chars];
      forall i | 0 <= i < chars ensures data[i] == c[i] {}
      start := Around(start + chars);
      len := len - chars;
      forall i | 0 <= i < len ensures Contents()[i] == c[chars + i] {
        assert Around(start + i) == Around(old(start) + (chars + i));
      }
    }

    /** The copying of pipe_read. */
    method Drain(count: nat) returns (data: seq<int>)
      requires Valid()
      modifies this`start, this`len, this`consumed
      ensures Valid() && data == old(Contents())[..Least(count, old(len))]
      ensures Contents() == old(Contents())[Least(count, old(len))..]
      ensures consumed == old(consumed) + data
      ensures |data| < count ==> len == 0
    {
      hide Ring.Contents, Around;
      data := [];
      ghost var c := Contents();
      while |data| < count && len > 0
        invariant Shape() && |data| <= count && |data| <= |c| && data == c[..|data|] && Contents() == c[|data|..]
        invariant consumed == old(consumed)
        decreases count - |data|
      {
        var chars := Least(PIPE_SIZE - start, Least(count - |data|, len));
        CutTwice(c, |data|, chars);
        var more := CopyOut(chars);
        data := data + more;
      }
      if len == 0 {
        start := 0;
        assert Contents() == c[|data|..];
      }
      consumed := consumed + data;
      CutOnce(old(consumed), c, |data|);
    }

    /** The copying of pipe_write, as far as there is space. */
    method Fill(src: seq<int>) returns (n: nat)
      requires Valid()
      modifies this`len, this`produced, base
      ensures Valid() && n == Least(|src|, PIPE_SIZE - old(len)) && Contents() == old(Contents()) + src[..n]
      ensures produced == old(produced) + src[..n] && consumed == old(consumed)
    {
      n := 0;
      ghost var c := Contents();
      assert c + src[..0] == c;
      while n < |src| && len < PIPE_SIZE
        invariant Shape() && n <= |src| && n <= PIPE_SIZE - |c| && Contents() == c + src[..n] && start == old(start)
        invariant produced == old(produced) && consumed == old(consumed)
        decreases |src| - n
      {
        var chars := Least(PIPE_SIZE - Around(start + len), Least(|src| - n, PIPE_SIZE - len));
        CopyIn(src[n..n + chars]);
        assert (c + src[..n]) + src[n..n + chars] == c + src[..n + chars];
        n := n + chars;
      }
      produced := produced + src[..n];
      assert (consumed + c) + src[..n] == consumed + (c + src[..n]);
    }

    /** One stay of pipe_read inside the semaphore, with `count` bytes still wanted. */
    method ReadSection(count: nat, nonblock: bool, waitingWriters: nat) returns (data: seq<int>, end: ReadEnd)
      requires Valid() && count > 0
      modifies this`start, this`len, this`consumed
      ensures Valid() && data == old(Contents())[..Least(count, old(len))]
      ensures Contents() == old(Contents())[Least(count, old(len))..]
      ensures consumed == old(consumed) + data
      ensures data == [] ==> len == 0
      ensures end == if data != [] && (|data| == count || waitingWriters == 0 || nonblock) then ReadDone
        else if writers == 0 then EndOfFile else if nonblock then ReadAgain else ReadWaits
    {
      data := [];
      if len > 0 {
        data := Drain(count);
        if !(|data| < count && waitingWriters > 0 && !nonblock) { return data, ReadDone; }
        assert len == 0;
      } else {
        assert Contents()[..0] == [] && Contents()[0..] == Contents() && consumed + [] == consumed;
      }
      if writers == 0 { return data, EndOfFile; }
      if nonblock { return data, ReadAgain; }
      end := ReadWaits;
    }

    /** One stay of pipe_write inside the semaphore, with the first `at` bytes of the call written. */
    method WriteSection(buf: seq<int>, at: nat, nonblock: bool) returns (n: nat, end: WriteEnd)
      requires Valid() && at < |buf| && (at > 0 ==> |buf| > PIPE_BUF)
      modifies this`len, this`produced, base
      ensures Valid() && n <= |buf| - at && consumed == old(consumed)
      ensures Contents() == old(Contents()) + buf[at..at + n] && produced == old(produced) + buf[at..at + n]
      ensures end == NoReaders <==> readers == 0
      ensures end == NoReaders ==> n == 0
      ensures readers > 0 && |buf| <= PIPE_BUF ==>
        (n == |buf| <==> |buf| <= PIPE_SIZE - old(len)) && (n == |buf| || n == 0)
      ensures readers > 0 && |buf| > PIPE_BUF ==> n == Least(|buf| - at, PIPE_SIZE - old(len))
      ensures readers > 0 ==> end == if at + n == |buf| || (nonblock && at + n > 0) then WriteDone
        else if nonblock then WriteAgain else WriteWaits
    {
      n := 0;
      assert old(Contents()) + buf[at..at] == old(Contents()) && old(produced) + buf[at..at] == old(produced);
      if readers == 0 { return 0, NoReaders; }
      var free := if |buf| <= PIPE_BUF then |buf| else 1;
      if PIPE_SIZE - len >= free {
        n := Fill(buf[at..]);
        assert buf[at..][..n] == buf[at..at + n];
      }
      end := if at + n == |buf| || (nonblock && at + n > 0) then WriteDone else if nonblock then WriteAgain
        else WriteWaits;
    }
  }
}
