/** What an unlock does to one owner's spans in any order, overlapping or not (fs/locks.c). After a
    request has wrapped the owner's list need not be canonical, and then the loop can stop early or
    forget a span that it meant to cut. */
module UnlockSpans {
  import opened LockSpans

  /** The loop ends at span `s`: it lies behind the request or reaches past its end. */
  predicate StopsAt(s: Span, c: Span) { s.end >= c.start && (s.start > c.end || s.end > c.end) }

  /** Span `s` reaches into the request from below and becomes `left`. */
  predicate CutsLeft(s: Span, c: Span) { s.start < c.start <= s.end }

  /** Up to where the loop ends, some span becomes `left`. */
  predicate CutsSome(g: seq<Span>, c: Span) {
    g != [] && (CutsLeft(g[0], c) || (!StopsAt(g[0], c) && CutsSome(g[1..], c)))
  }

  /** The owner's spans after unlock `c`: `left` is one variable, so only the last such span is cut. */
  function Unlocked(g: seq<Span>, c: Span): seq<Span> {
    if g == [] then []
    else if g[0].end < c.start then [g[0]] + Unlocked(g[1..], c)
    else if g[0].start > c.end then g
    else if g[0].end > c.end then LeftPiece(g[0], c) + ([g[0].(start := c.end + 1)] + g[1..])
    else if g[0].start >= c.start then Unlocked(g[1..], c)
    else [if CutsSome(g[1..], c) then g[0] else g[0].(end := c.start - 1)] + Unlocked(g[1..], c)
  }

  // ---- the bytes that are left ----

  ghost predicate HasByte(g: seq<Span>, typ: LockType, x: int) {
    exists m :: 0 <= m < |g| && g[m].typ == typ && g[m].Has(x)
  }

  /** The unlock misses span `m`: the loop ended before it, or a later span became `left` instead. */
  ghost predicate Missed(g: seq<Span>, c: Span, m: int)
    requires 0 <= m < |g|
  {
    || (exists i :: 0 <= i < m && StopsAt(g[i], c))
    || (CutsLeft(g[m], c) && exists j :: m < j < |g| && LeftAt(g, c, j))
  }

  ghost predicate LeftAt(g: seq<Span>, c: Span, j: int)
    requires 0 <= j < |g|
  {
    CutsLeft(g[j], c) && forall i :: 0 <= i < j ==> !StopsAt(g[i], c)
  }

  /** Byte `x` of span `m` is still locked after the unlock. */
  ghost predicate Remains(g: seq<Span>, c: Span, m: int, typ: LockType, x: int) {
    0 <= m < |g| && g[m].typ == typ && g[m].Has(x) && (!c.Has(x) || Missed(g, c, m))
  }

  lemma {:induction false} CutsSomeIff(g: seq<Span>, c: Span)
    ensures CutsSome(g, c) <==> exists j :: 0 <= j < |g| && LeftAt(g, c, j)
  {
    if g != [] {
      CutsSomeIff(g[1..], c);
      if j :| 0 <= j < |g| && LeftAt(g, c, j) {
        if j > 0 { assert LeftAt(g[1..], c, j - 1); }
      }
      if CutsLeft(g[0], c) {
        assert LeftAt(g, c, 0);
      } else if CutsSome(g, c) {
        var j :| 0 <= j < |g[1..]| && LeftAt(g[1..], c, j);
        LeftAtTail(g, c, j);
      }
    }
  }

  lemma {:induction false} LeftAtTail(g: seq<Span>, c: Span, j: nat)
    requires j < |g| - 1 && !StopsAt(g[0], c)
    ensures LeftAt(g[1..], c, j) <==> LeftAt(g, c, j + 1)
  {
    if LeftAt(g[1..], c, j) {
      forall i | 0 <= i < j + 1 ensures !StopsAt(g[i], c) {
        if i > 0 { assert g[i] == g[1..][i - 1]; }
      }
    }
    if LeftAt(g, c, j + 1) {
      forall i | 0 <= i < j ensures !StopsAt(g[1..][i], c) { assert g[1..][i] == g[i + 1]; }
    }
  }

  lemma {:induction false} MissedTail(g: seq<Span>, c: Span, m: nat)
    requires m < |g| - 1 && !StopsAt(g[0], c)
    ensures Missed(g[1..], c, m) <==> Missed(g, c, m + 1)
  {
    var t := g[1..];
    if i :| 0 <= i < m && StopsAt(t[i], c) { assert StopsAt(g[i + 1], c); }
    if i :| 0 <= i < m + 1 && StopsAt(g[i], c) { assert g[i] == t[i - 1]; }
    if j :| m < j < |t| && LeftAt(t, c, j) { LeftAtTail(g, c, j); }
    if j :| m + 1 < j < |g| && LeftAt(g, c, j) { LeftAtTail(g, c, j - 1); }
  }

  lemma {:induction false} RemainsTail(g: seq<Span>, c: Span, typ: LockType, x: int)
    requires g != [] && !StopsAt(g[0], c)
    ensures forall m :: 0 <= m < |g| - 1 ==> (Remains(g[1..], c, m, typ, x) <==> Remains(g, c, m + 1, typ, x))
  {
    forall m | 0 <= m < |g| - 1 ensures Remains(g[1..], c, m, typ, x) <==> Remains(g, c, m + 1, typ, x) {
      MissedTail(g, c, m);
    }
  }

  /** When the first span is missed. */
  lemma {:induction false} FirstMissed(g: seq<Span>, c: Span)
    requires g != []
    ensures Missed(g, c, 0) <==> CutsLeft(g[0], c) && !StopsAt(g[0], c) && CutsSome(g[1..], c)
  {
    CutsSomeIff(g[1..], c);
    if !StopsAt(g[0], c) {
      forall j | 0 <= j < |g| - 1 ensures LeftAt(g[1..], c, j) <==> LeftAt(g, c, j + 1) { LeftAtTail(g, c, j); }
      if j :| 0 < j < |g| && LeftAt(g, c, j) { assert LeftAt(g[1..], c, j - 1); }
    }
  }

  lemma {:induction false} HasByteCons(s: Span, g: seq<Span>, typ: LockType, x: int)
    ensures HasByte([s] + g, typ, x) <==> (s.typ == typ && s.Has(x)) || HasByte(g, typ, x)
  {
    var r := [s] + g;
    assert r[0] == s;
    if m :| 0 <= m < |g| && g[m].typ == typ && g[m].Has(x) { assert r[m + 1] == g[m]; }
    if m :| 0 < m < |r| && r[m].typ == typ && r[m].Has(x) { assert r[m] == g[m - 1]; }
  }

  /** For every list and every unlock: a byte is still locked, with the type it had, exactly if some
      span had it and it lies outside the request or in a span that was missed. */
  lemma {:induction false} UnlockedBytes(g: seq<Span>, c: Span, typ: LockType, x: int)
    requires c.start <= c.end
    ensures HasByte(Unlocked(g, c), typ, x) <==> exists m :: Remains(g, c, m, typ, x)
  {
    if g != [] {
      if StopsAt(g[0], c) {
        StoppedBytes(g, c, typ, x);
      } else {
        UnlockedBytes(g[1..], c, typ, x);
        RemainsTail(g, c, typ, x);
        FirstMissed(g, c);
        FirstBytes(g, c, typ, x);
        RemainsSplit(g, c, typ, x);
      }
    }
  }

  lemma {:induction false} RemainsSplit(g: seq<Span>, c: Span, typ: LockType, x: int)
    requires g != []
    requires forall m :: 0 <= m < |g| - 1 ==> (Remains(g[1..], c, m, typ, x) <==> Remains(g, c, m + 1, typ, x))
    ensures (exists m :: Remains(g, c, m, typ, x)) <==>
      Remains(g, c, 0, typ, x) || exists m :: Remains(g[1..], c, m, typ, x)
  {
    hide Remains;
    RemainsRange(g, c, typ, x);
    RemainsRange(g[1..], c, typ, x);
    if m :| Remains(g, c, m, typ, x) {
      if m > 0 { assert Remains(g[1..], c, m - 1, typ, x); }
    }
    if m :| Remains(g[1..], c, m, typ, x) { assert Remains(g, c, m + 1, typ, x); }
  }

  lemma {:induction false} RemainsRange(g: seq<Span>, c: Span, typ: LockType, x: int)
    ensures forall m :: Remains(g, c, m, typ, x) ==> 0 <= m < |g|
  {}

  lemma {:induction false} FirstBytes(g: seq<Span>, c: Span, typ: LockType, x: int)
    requires g != [] && !StopsAt(g[0], c) && c.start <= c.end
    requires Missed(g, c, 0) <==> CutsLeft(g[0], c) && !StopsAt(g[0], c) && CutsSome(g[1..], c)
    ensures HasByte(Unlocked(g, c), typ, x) <==>
      Remains(g, c, 0, typ, x) || HasByte(Unlocked(g[1..], c), typ, x)
  {
    hide Missed, HasByte, CutsSome;
    var rest := Unlocked(g[1..], c);
    HasByteCons(g[0], rest, typ, x);
    HasByteCons(g[0].(end := c.start - 1), rest, typ, x);
  }

  lemma {:induction false} StoppedBytes(g: seq<Span>, c: Span, typ: LockType, x: int)
    requires g != [] && StopsAt(g[0], c) && c.start <= c.end
    ensures HasByte(Unlocked(g, c), typ, x) <==> exists m :: Remains(g, c, m, typ, x)
  {
    hide Unlocked, Missed, HasByte, CutsSome;
    FirstMissed(g, c);
    BehindRemains(g, c, typ, x);
    StoppedPieces(g, c, typ, x);
  }

  /** The span at which the loop ends loses the bytes of the request. */
  lemma {:induction false} StoppedPieces(g: seq<Span>, c: Span, typ: LockType, x: int)
    requires g != [] && StopsAt(g[0], c) && c.start <= c.end
    ensures HasByte(Unlocked(g, c), typ, x) <==>
      (g[0].typ == typ && g[0].Has(x) && !c.Has(x)) || HasByte(g[1..], typ, x)
  {
    hide HasByte, CutsSome;
    if g[0].start > c.end {
      assert g == [g[0]] + g[1..];
      HasByteCons(g[0], g[1..], typ, x);
    } else {
      var right, left := g[0].(start := c.end + 1), g[0].(end := c.start - 1);
      HasByteCons(right, g[1..], typ, x);
      HasByteCons(left, [right] + g[1..], typ, x);
      assert [] + ([right] + g[1..]) == [right] + g[1..];
    }
  }

  /** Behind the span at which the loop ends everything stays. */
  lemma {:induction false} BehindRemains(g: seq<Span>, c: Span, typ: LockType, x: int)
    requires g != [] && StopsAt(g[0], c)
    ensures (exists m :: Remains(g, c, m, typ, x)) <==> Remains(g, c, 0, typ, x) || HasByte(g[1..], typ, x)
  {
    forall m | 0 < m < |g| ensures Missed(g, c, m) { assert StopsAt(g[0], c); }
    if m :| Remains(g, c, m, typ, x) {
      if m > 0 { assert g[m] == g[1..][m - 1]; }
    }
    if m :| 0 <= m < |g[1..]| && g[1..][m].typ == typ && g[1..][m].Has(x) {
      assert Remains(g, c, m + 1, typ, x);
    }
  }

  // ---- lists on which nothing is missed ----

  /** An unlock of everything leaves nothing but spans that end before the first byte. */
  lemma {:induction false} UnlockAllClears(g: seq<Span>, c: Span)
    requires forall i :: 0 <= i < |g| ==> 0 <= g[i].start <= OFFSET_MAX && g[i].end <= OFFSET_MAX
    requires c == Span(Unlock, 0, OFFSET_MAX)
    ensures forall i :: 0 <= i < |Unlocked(g, c)| ==> Unlocked(g, c)[i].end < 0
  {
    if g != [] {
      forall i | 0 <= i < |g[1..]| ensures 0 <= g[1..][i].start <= OFFSET_MAX && g[1..][i].end <= OFFSET_MAX {
        assert g[1..][i] == g[i + 1];
      }
      UnlockAllClears(g[1..], c);
    }
  }

  /** On a canonical list an unlock is the reference walk. */
  lemma {:induction false} UnlockedIsWalk(g: seq<Span>, c: Span)
    requires Canonical(g) && ValidRequest(c) && c.typ == Unlock
    ensures Unlocked(g, c) == Walk(g, c)
  {
    if g != [] {
      CanonicalTail(g);
      assert ValidSpan(g[0]);
      UnlockedIsWalk(g[1..], c);
      if CutsLeft(g[0], c) { NoneCutAbove(g[1..], c); }
    }
  }

  lemma {:induction false} NoneCutAbove(g: seq<Span>, c: Span)
    requires forall i :: 0 <= i < |g| ==> g[i].start >= c.start
    ensures !CutsSome(g, c)
  {
    if g != [] {
      forall i | 0 <= i < |g[1..]| ensures g[1..][i].start >= c.start { assert g[1..][i] == g[i + 1]; }
      NoneCutAbove(g[1..], c);
    }
  }
}
