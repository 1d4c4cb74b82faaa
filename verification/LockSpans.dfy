/** The byte-range meaning of one owner's POSIX locks (fs/locks.c).

    A span is the part of a `file_lock` that says which bytes are held and how.
    `Walk` is the list that the apply phase of `posix_lock_file` leaves behind for the
    owner when the owner's list was canonical. Offsets are 64-bit `loff_t`s, so
    `fl_end + 1` wraps at OFFSET_MAX, as it does in the source. */
module LockSpans {

  const OFFSET_MAX: int := 0x7FFF_FFFF_FFFF_FFFF
  const OFFSET_MIN: int := -0x8000_0000_0000_0000

  datatype LockType = Read | Write | Unlock

  datatype Span = Span(typ: LockType, start: int, end: int) {
    predicate Has(x: int) { start <= x <= end }
  }

  /** `x + 1` as a signed 64-bit machine computes it. */
  function Inc(x: int): int { if x == OFFSET_MAX then OFFSET_MIN else x + 1 }

  predicate ValidRequest(c: Span) { 0 <= c.start <= c.end <= OFFSET_MAX }

  predicate ValidSpan(s: Span) { s.typ != Unlock && ValidRequest(s) }

  /** `a` lies before `b`, with a gap between them when they have one type. */
  predicate Apart(a: Span, b: Span) {
    a.end < b.start && (a.typ == b.typ ==> a.end + 1 < b.start)
  }

  /** Sorted, disjoint, and never adjacent with equal type. */
  ghost predicate Canonical(g: seq<Span>) {
    && (forall i :: 0 <= i < |g| ==> ValidSpan(g[i]))
    && (forall i, j :: 0 <= i < j < |g| ==> Apart(g[i], g[j]))
  }

  /** How byte `x` is held; `Unlock` when no span covers it. */
  function TypeAt(g: seq<Span>, x: int): LockType {
    if g == [] then Unlock
    else if g[0].Has(x) then g[0].typ
    else TypeAt(g[1..], x)
  }

  function Min(a: int, b: int): int { if a <= b then a else b }
  function Max(a: int, b: int): int { if a <= b then b else a }

  function Hull(c: Span, g: Span): Span {
    Span(c.typ, Min(c.start, g.start), Max(c.end, g.end))
  }

  /** The entry a request leaves behind: none for an unlock. */
  function Entry(c: Span): seq<Span> { if c.typ == Unlock then [] else [c] }

  /** The owner's spans after request `c`. */
  function Walk(g: seq<Span>, c: Span): seq<Span> {
    if g == [] then Entry(c)
    else if g[0].typ == c.typ then
      if g[0].end < c.start - 1 then [g[0]] + Walk(g[1..], c)
      else if g[0].start > Inc(c.end) then Entry(c) + g
      else Walk(g[1..], Hull(c, g[0]))
    else
      if g[0].end < c.start then [g[0]] + Walk(g[1..], c)
      else if g[0].start > c.end then Entry(c) + g
      else if g[0].end > c.end then LeftPiece(g[0], c) + (Entry(c) + ([g[0].(start := c.end + 1)] + g[1..]))
      else LeftPiece(g[0], c) + Walk(g[1..], c)
  }

  function LeftPiece(g: Span, c: Span): seq<Span> {
    if g.start < c.start then [g.(end := c.start - 1)] else []
  }

  /** The request reaches OFFSET_MAX and touches a span of its own type, so that
      `caller->fl_end + 1` wraps and the merge is missed. */
  ghost predicate Wraps(g: seq<Span>, c: Span) {
    && c.end == OFFSET_MAX
    && c.typ != Unlock
    && exists i :: 0 <= i < |g| && g[i].typ == c.typ && g[i].end >= c.start - 1
  }

  lemma {:induction false} CanonicalTail(g: seq<Span>)
    requires Canonical(g) && g != []
    ensures Canonical(g[1..])
    ensures forall i :: 0 <= i < |g[1..]| ==> Apart(g[0], g[1..][i])
  {
    assert forall i :: 0 <= i < |g[1..]| ==> g[1..][i] == g[i + 1];
  }

  lemma {:induction false} CanonicalCons(h: Span, g: seq<Span>)
    requires Canonical(g) && ValidSpan(h)
    requires forall i :: 0 <= i < |g| ==> Apart(h, g[i])
    ensures Canonical([h] + g)
  {
    var r := [h] + g;
    assert forall i :: 0 < i < |r| ==> r[i] == g[i - 1];
  }

  /** Nothing merges past a wrap in the tail when nothing did in the whole list. */
  lemma {:induction false} TailDoesNotWrap(g: seq<Span>, c: Span)
    requires g != [] && !Wraps(g, c)
    ensures !Wraps(g[1..], c)
  {
    assert forall i :: 0 <= i < |g[1..]| ==> g[1..][i] == g[i + 1];
  }

  lemma {:induction false} HullDoesNotWrap(g: seq<Span>, c: Span)
    requires Canonical(g) && g != [] && ValidRequest(c)
    requires g[0].typ == c.typ && g[0].start <= Inc(c.end)
    ensures !Wraps(g[1..], Hull(c, g[0]))
  {
    CanonicalTail(g);
    if |g| > 1 {
      assert Apart(g[0], g[1]) && ValidSpan(g[1]);
    }
  }

  /** Whatever lies apart before the list and the request lies apart before the result. */
  lemma {:induction false} WalkKeepsApart(h: Span, g: seq<Span>, c: Span)
    requires Canonical(g) && ValidRequest(c) && ValidSpan(h)
    requires forall i :: 0 <= i < |g| ==> Apart(h, g[i])
    requires c.typ != Unlock ==> Apart(h, c)
    ensures forall i :: 0 <= i < |Walk(g, c)| ==> Apart(h, Walk(g, c)[i])
  {
    if g != [] {
      CanonicalTail(g);
      if g[0].typ == c.typ && g[0].end >= c.start - 1 && g[0].start <= Inc(c.end) {
        WalkKeepsApart(h, g[1..], Hull(c, g[0]));
      } else {
        WalkKeepsApart(h, g[1..], c);
      }
    }
  }

  /** Canonical lists stay canonical when the end offset does not wrap. */
  lemma {:induction false} WalkCanonical(g: seq<Span>, c: Span)
    requires Canonical(g) && ValidRequest(c) && !Wraps(g, c)
    ensures Canonical(Walk(g, c))
  {
    if g == [] {
    } else {
      CanonicalTail(g);
      var g0 := g[0];
      if g0.typ == c.typ {
        if g0.end < c.start - 1 {
          TailDoesNotWrap(g, c);
          WalkCanonical(g[1..], c);
          WalkKeepsApart(g0, g[1..], c);
          CanonicalCons(g0, Walk(g[1..], c));
        } else if g0.start > Inc(c.end) {
          assert c.end != OFFSET_MAX;
          CanonicalCons(c, g);
        } else {
          HullDoesNotWrap(g, c);
          WalkCanonical(g[1..], Hull(c, g0));
        }
      } else if g0.end < c.start {
        TailDoesNotWrap(g, c);
        WalkCanonical(g[1..], c);
        WalkKeepsApart(g0, g[1..], c);
        CanonicalCons(g0, Walk(g[1..], c));
      } else if g0.start > c.end {
        if c.typ != Unlock { CanonicalCons(c, g); }
        else { assert Entry(c) + g == g; }
      } else {
        TailDoesNotWrap(g, c);
        WalkCanonical(g[1..], c);
        WalkCanonicalOverlap(g, c);
      }
    }
  }

  /** The part of `Walk` from the request on, when the first span overlaps it. */
  function FromRequest(g: seq<Span>, c: Span): seq<Span>
    requires g != []
  {
    if g[0].end > c.end then Entry(c) + ([g[0].(start := c.end + 1)] + g[1..]) else Walk(g[1..], c)
  }

  lemma {:induction false} FromRequestCanonical(g: seq<Span>, c: Span)
    requires Canonical(g) && ValidRequest(c) && g != []
    requires g[0].typ != c.typ && g[0].end >= c.start && g[0].start <= c.end
    requires Canonical(Walk(g[1..], c))
    ensures Canonical(FromRequest(g, c))
  {
    hide Walk, TypeAt;
    CanonicalTail(g);
    if g[0].end > c.end {
      var rs := [g[0].(start := c.end + 1)] + g[1..];
      CanonicalCons(rs[0], g[1..]);
      if c.typ != Unlock { CanonicalCons(c, rs); }
      else { assert Entry(c) + rs == rs; }
    }
  }

  lemma {:induction false} LeftPieceApart(g: seq<Span>, c: Span)
    requires Canonical(g) && ValidRequest(c) && g != []
    requires g[0].typ != c.typ && g[0].end >= c.start && g[0].start < c.start
    ensures forall i :: 0 <= i < |FromRequest(g, c)| ==>
      Apart(Span(g[0].typ, g[0].start, c.start - 1), FromRequest(g, c)[i])
  {
    CanonicalTail(g);
    if g[0].end <= c.end { WalkKeepsApart(g[0].(end := c.start - 1), g[1..], c); }
  }

  /** The case of `WalkCanonical` where the first span overlaps and has another type. */
  lemma {:induction false} WalkCanonicalOverlap(g: seq<Span>, c: Span)
    requires Canonical(g) && ValidRequest(c) && g != []
    requires g[0].typ != c.typ && g[0].end >= c.start && g[0].start <= c.end
    requires Canonical(Walk(g[1..], c))
    ensures Canonical(Walk(g, c))
  {
    FromRequestCanonical(g, c);
    assert Walk(g, c) == LeftPiece(g[0], c) + FromRequest(g, c);
    if g[0].start < c.start {
      LeftPieceApart(g, c);
      CanonicalCons(g[0].(end := c.start - 1), FromRequest(g, c));
    } else {
      assert Walk(g, c) == FromRequest(g, c);
    }
  }

  lemma {:induction false} NotCanonicalCons(h: Span, g: seq<Span>)
    requires !Canonical(g)
    ensures !Canonical([h] + g)
  {
    assert ([h] + g)[1..] == g;
    if Canonical([h] + g) { CanonicalTail([h] + g); }
  }

  /** ... and only then: a wrap always leaves two touching spans of one type. */
  lemma {:induction false} WrapBreaksCanonical(g: seq<Span>, c: Span)
    requires Canonical(g) && ValidRequest(c) && Wraps(g, c)
    ensures !Canonical(Walk(g, c))
  {
    CanonicalTail(g);
    var g0 := g[0];
    var i :| 0 <= i < |g| && g[i].typ == c.typ && g[i].end >= c.start - 1;
    if g0.typ == c.typ && g0.end >= c.start - 1 {
      assert Walk(g, c) == [c] + g;
      assert !Apart(([c] + g)[0], ([c] + g)[1]);
    } else {
      assert i > 0 && g[1..][i - 1] == g[i];
      WrapBreaksCanonical(g[1..], c);
      if g0.typ == c.typ || g0.end < c.start {
        NotCanonicalCons(g0, Walk(g[1..], c));
      } else if g0.start < c.start {
        NotCanonicalCons(g0.(end := c.start - 1), Walk(g[1..], c));
      } else {
        assert Walk(g, c) == Walk(g[1..], c);
      }
    }
  }

  lemma {:induction false} UnlockedBelow(g: seq<Span>, x: int)
    requires forall i :: 0 <= i < |g| ==> x < g[i].start
    ensures TypeAt(g, x) == Unlock
  {
    if g != [] { UnlockedBelow(g[1..], x); }
  }

  /** The request rewrites exactly its own bytes, wrapping or not, for a reader that takes the
      first span over a byte. */
  lemma {:induction false} WalkTypeAt(g: seq<Span>, c: Span, x: int)
    requires Canonical(g) && ValidRequest(c)
    ensures TypeAt(Walk(g, c), x) == if c.Has(x) then c.typ else TypeAt(g, x)
  {
    if g == [] {
    } else {
      CanonicalTail(g);
      var g0 := g[0];
      if g0.typ == c.typ && g0.end >= c.start - 1 && g0.start <= Inc(c.end) {
        WalkTypeAt(g[1..], Hull(c, g0), x);
      } else if g0.typ == c.typ && g0.end >= c.start - 1 {
        assert Walk(g, c) == [c] + g;
        TypeAtConcat([c], g, x);
      } else if g0.typ != c.typ && g0.start > c.end {
        if c.Has(x) { UnlockedBelow(g, x); }
        TypeAtConcat(Entry(c), g, x);
      } else if g0.end < c.start {
        WalkTypeAt(g[1..], c, x);
        TypeAtConcat([g0], Walk(g[1..], c), x);
      } else {
        WalkTypeAt(g[1..], c, x);
        WalkTypeAtOverlap(g, c, x);
      }
    }
  }

  // ---- what a wrap can leave in the requested range ----

  predicate Meets(e: Span, c: Span) { e.end >= c.start && e.start <= c.end }

  /** A span of another type than the request has bytes of it. */
  ghost predicate Foreign(g: seq<Span>, c: Span) {
    exists i :: 0 <= i < |g| && g[i].typ != c.typ && Meets(g[i], c)
  }

  /** The request wraps at a span of its own type, and a span of another type follows that one. */
  ghost predicate LeavesStale(g: seq<Span>, c: Span) {
    && c.end == OFFSET_MAX
    && c.typ != Unlock
    && exists i, j :: 0 <= i < j < |g| && g[i].typ == c.typ && g[i].end >= c.start - 1 && g[j].typ != c.typ
  }

  lemma {:induction false} EntryType(g: seq<Span>, i: nat, x: int)
    requires Canonical(g) && i < |g| && g[i].Has(x)
    ensures TypeAt(g, x) == g[i].typ
  {
    if i > 0 {
      CanonicalTail(g);
      assert g[1..][i - 1] == g[i] && Apart(g[0], g[i]);
      EntryType(g[1..], i - 1, x);
    }
  }

  lemma {:induction false} ForeignAfter(p: seq<Span>, w: seq<Span>, c: Span)
    requires |p| <= 1 && (p != [] ==> !Meets(p[0], c))
    ensures Foreign(p + w, c) <==> Foreign(w, c)
  {
    if Foreign(w, c) {
      var i :| 0 <= i < |w| && w[i].typ != c.typ && Meets(w[i], c);
      assert (p + w)[|p| + i] == w[i];
    }
    assert forall i :: |p| <= i < |p + w| ==> (p + w)[i] == w[i - |p|];
  }

  lemma {:induction false} StaleInTail(g: seq<Span>, c: Span)
    requires g != [] && !(g[0].typ == c.typ && g[0].end >= c.start - 1)
    ensures LeavesStale(g[1..], c) <==> LeavesStale(g, c)
  {
    if LeavesStale(g[1..], c) {
      var i, j :| 0 <= i < j < |g[1..]| && g[1..][i].typ == c.typ && g[1..][i].end >= c.start - 1 &&
        g[1..][j].typ != c.typ;
      assert g[i + 1] == g[1..][i] && g[j + 1] == g[1..][j];
    }
    assert forall i :: 1 <= i < |g| ==> g[1..][i - 1] == g[i];
  }

  lemma {:induction false} StaleIffWrapping(g: seq<Span>, c: Span)
    requires Canonical(g) && ValidRequest(c) && Wraps(g, c)
    ensures Foreign(Walk(g, c), c) <==> LeavesStale(g, c)
  {
    CanonicalTail(g);
    var g0 := g[0];
    var i :| 0 <= i < |g| && g[i].typ == c.typ && g[i].end >= c.start - 1;
    if g0.typ == c.typ && g0.end >= c.start - 1 {
      assert Walk(g, c) == [c] + g;
      StaleAtWrap(g, c);
    } else {
      assert i > 0 && g[1..][i - 1] == g[i];
      StaleIffWrapping(g[1..], c);
      StaleInTail(g, c);
      var p := if g0.end < c.start then [g0] else LeftPiece(g0, c);
      ForeignAfter(p, Walk(g[1..], c), c);
      assert Walk(g, c) == p + Walk(g[1..], c);
    }
  }

  lemma {:induction false} StaleAtWrap(g: seq<Span>, c: Span)
    requires Canonical(g) && ValidRequest(c) && g != [] && c.end == OFFSET_MAX && c.typ != Unlock
    requires g[0].typ == c.typ && g[0].end >= c.start - 1
    ensures Foreign([c] + g, c) <==> LeavesStale(g, c)
  {
    var w := [c] + g;
    if Foreign(w, c) {
      var k :| 0 <= k < |w| && w[k].typ != c.typ && Meets(w[k], c);
      assert g[k - 1] == w[k] && 0 < k - 1;
    }
    if LeavesStale(g, c) {
      var i, j :| 0 <= i < j < |g| && g[i].typ == c.typ && g[i].end >= c.start - 1 && g[j].typ != c.typ;
      assert Apart(g[0], g[j]) && ValidSpan(g[j]) && w[j + 1] == g[j];
    }
  }

  /** After the request no span of another type has any of its bytes, exactly unless the request
      wraps at a span that one of another type follows. */
  lemma {:induction false} RangeIsCleanIff(g: seq<Span>, c: Span)
    requires Canonical(g) && ValidRequest(c)
    ensures Foreign(Walk(g, c), c) <==> LeavesStale(g, c)
  {
    if Wraps(g, c) {
      StaleIffWrapping(g, c);
    } else {
      WalkCanonical(g, c);
      var w := Walk(g, c);
      forall k | 0 <= k < |w| && Meets(w[k], c) ensures w[k].typ == c.typ {
        var x := Max(w[k].start, c.start);
        assert ValidSpan(w[k]);
        EntryType(w, k, x);
        WalkTypeAt(g, c, x);
      }
    }
  }

  lemma {:induction false} TypeAtConcat(a: seq<Span>, b: seq<Span>, x: int)
    requires |a| <= 1
    ensures TypeAt(a + b, x) == if a != [] && a[0].Has(x) then a[0].typ else TypeAt(b, x)
  {
    assert (a + b)[|a|..] == b;
  }

  lemma {:induction false} FromRequestTypeAt(g: seq<Span>, c: Span, x: int)
    requires ValidRequest(c) && g != [] && g[0].end >= c.start
    requires TypeAt(Walk(g[1..], c), x) == if c.Has(x) then c.typ else TypeAt(g[1..], x)
    requires x <= g[0].end ==> TypeAt(g[1..], x) == Unlock
    ensures TypeAt(FromRequest(g, c), x) ==
      if c.Has(x) then c.typ else if c.end < x <= g[0].end then g[0].typ else TypeAt(g[1..], x)
  {
    if g[0].end > c.end {
      var r := g[0].(start := c.end + 1);
      TypeAtConcat([r], g[1..], x);
      TypeAtConcat(Entry(c), [r] + g[1..], x);
    }
  }

  lemma {:induction false} WalkTypeAtOverlap(g: seq<Span>, c: Span, x: int)
    requires Canonical(g) && ValidRequest(c) && g != []
    requires g[0].typ != c.typ && g[0].end >= c.start && g[0].start <= c.end
    requires TypeAt(Walk(g[1..], c), x) == if c.Has(x) then c.typ else TypeAt(g[1..], x)
    ensures TypeAt(Walk(g, c), x) == if c.Has(x) then c.typ else TypeAt(g, x)
  {
    CanonicalTail(g);
    if x <= g[0].end { UnlockedBelow(g[1..], x); }
    FromRequestTypeAt(g, c, x);
    TypeAtConcat(LeftPiece(g[0], c), FromRequest(g, c), x);
    assert Walk(g, c) == LeftPiece(g[0], c) + FromRequest(g, c);
  }

  /** A canonical list is determined by its bytes: there is one list per byte map. */
  lemma {:induction false} CanonicalUnique(a: seq<Span>, b: seq<Span>)
    requires Canonical(a) && Canonical(b)
    requires forall x :: TypeAt(a, x) == TypeAt(b, x)
    ensures a == b
  {
    assert a != [] ==> TypeAt(b, a[0].start) == a[0].typ;
    assert b != [] ==> TypeAt(a, b[0].start) == b[0].typ;
    if a != [] {
      CanonicalTail(a);
      CanonicalTail(b);
      HeadNotPast(a, b);
      HeadNotPast(b, a);
      forall x ensures TypeAt(a[1..], x) == TypeAt(b[1..], x) {
        if x <= a[0].end {
          UnlockedBelow(a[1..], x);
          UnlockedBelow(b[1..], x);
        }
        assert TypeAt(a, x) == TypeAt(b, x);
      }
      CanonicalUnique(a[1..], b[1..]);
    }
  }

  /** The first span of `a` starts no earlier than that of `b`; with equal starts it ends no later. */
  lemma {:induction false} HeadNotPast(a: seq<Span>, b: seq<Span>)
    requires Canonical(a) && Canonical(b) && a != [] && b != []
    requires forall x :: TypeAt(a, x) == TypeAt(b, x)
    ensures b[0].start <= a[0].start
    ensures a[0].start == b[0].start ==> a[0].typ == b[0].typ && a[0].end <= b[0].end
  {
    var s := a[0].start;
    assert TypeAt(a, s) == TypeAt(b, s) == a[0].typ;
    if s < b[0].start { UnlockedBelow(b, s); }
    if s == b[0].start && b[0].end < a[0].end {
      CanonicalTail(b);
      var x := b[0].end + 1;
      assert TypeAt(b, x) == TypeAt(a, x) == a[0].typ;
      FirstByteAfter(b);
    }
  }

  /** The byte after a span is not held with that span's type. */
  lemma {:induction false} FirstByteAfter(b: seq<Span>)
    requires Canonical(b) && b != []
    ensures TypeAt(b, b[0].end + 1) != b[0].typ
  {
    CanonicalTail(b);
    var x := b[0].end + 1;
    assert TypeAt(b, x) == TypeAt(b[1..], x);
    if |b| > 1 {
      CanonicalTail(b[1..]);
      if b[1].start > x { UnlockedBelow(b[1..], x); }
      assert Apart(b[0], b[1]);
    }
  }
}
