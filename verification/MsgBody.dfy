/** Message texts in pieces (ipc/msg.c, load_msg and store_msg): the first piece shares a page with
    the message header, every further one with a link. Bytes are numbers. */
module MsgBody {
  import opened Lists

  const PAGE_SIZE := 4096
  /** The header is a list node, a type, a size and a link: 20 bytes on i386. */
  const DATALEN_MSG := PAGE_SIZE - 20
  const DATALEN_SEG := PAGE_SIZE - 4

  /** The text that a message and its chain of segments hold. */
  function Text(head: seq<int>, segs: seq<seq<int>>): seq<int>
    decreases |segs|
  {
    if segs == [] then head else Text(head, segs[..|segs| - 1]) + segs[|segs| - 1]
  }

  /** Pieces are full except the last, and none is empty but the first of an empty message. */
  ghost predicate Packed(head: seq<int>, segs: seq<seq<int>>) {
    && |head| <= DATALEN_MSG && (segs != [] ==> |head| == DATALEN_MSG)
    && (forall i :: 0 <= i < |segs| ==> 0 < |segs[i]| <= DATALEN_SEG)
    && (forall i :: 0 <= i < |segs| - 1 ==> |segs[i]| == DATALEN_SEG)
  }

  method LoadMsg(src: seq<int>) returns (head: seq<int>, segs: seq<seq<int>>)
    ensures Text(head, segs) == src && Packed(head, segs)
  {
    var alen := Least(|src|, DATALEN_MSG);
    head, segs := src[..alen], [];
    var at := alen;
    while at < |src|
      invariant at <= |src| && Text(head, segs) == src[..at] && Packed(head, segs)
      invariant at < |src| ==> |head| == DATALEN_MSG && forall i :: 0 <= i < |segs| ==> |segs[i]| == DATALEN_SEG
    {
      alen := Least(|src| - at, DATALEN_SEG);
      ghost var before := segs;
      segs := segs + [src[at..at + alen]];
      assert segs[..|segs| - 1] == before;
      assert src[..at + alen] == src[..at] + src[at..at + alen];
      at := at + alen;
    }
    assert src[..at] == src;
  }

  lemma {:induction false} TextNext(head: seq<int>, segs: seq<seq<int>>, i: nat)
    requires i < |segs|
    ensures Text(head, segs[..i + 1]) == Text(head, segs[..i]) + segs[i]
  {
    assert segs[..i + 1][..i] == segs[..i];
  }

  lemma {:induction false} TextPrefix(head: seq<int>, segs: seq<seq<int>>, i: nat)
    requires i <= |segs|
    ensures Text(head, segs[..i]) <= Text(head, segs)
    decreases |segs| - i
  {
    if i == |segs| {
      assert segs[..i] == segs;
    } else {
      TextPrefix(head, segs, i + 1);
      TextNext(head, segs, i);
    }
  }

  /** Copies the first `len` bytes out; the segments reach that far. */
  method StoreMsg(head: seq<int>, segs: seq<seq<int>>, len: nat) returns (dest: seq<int>)
    requires Packed(head, segs) && len <= |Text(head, segs)|
    ensures dest == Text(head, segs)[..len]
  {
    var left := len;
    var alen := Least(left, DATALEN_MSG);
    TextPrefix(head, segs, 0);
    assert segs[..0] == [];
    HeadReaches(head, segs, alen);
    dest := head[..alen];
    left := left - alen;
    var seg := 0;
    while left > 0
      invariant |dest| + left == len && dest <= Text(head, segs) && seg <= |segs|
      invariant left > 0 ==> dest == Text(head, segs[..seg])
    {
      SegmentThere(head, segs, seg, len);
      alen := Least(left, DATALEN_SEG);
      SegmentReaches(head, segs, seg, alen, len);
      TextNext(head, segs, seg);
      TextPrefix(head, segs, seg + 1);
      assert dest + segs[seg][..alen] <= dest + segs[seg];
      dest := dest + segs[seg][..alen];
      left := left - alen;
      seg := seg + 1;
    }
  }

  lemma {:induction false} HeadReaches(head: seq<int>, segs: seq<seq<int>>, alen: nat)
    requires Packed(head, segs) && alen <= DATALEN_MSG && alen <= |Text(head, segs)|
    ensures alen <= |head|
  {}

  lemma {:induction false} SegmentThere(head: seq<int>, segs: seq<seq<int>>, i: nat, len: nat)
    requires i <= |segs| && len <= |Text(head, segs)| && |Text(head, segs[..i])| < len
    ensures i < |segs|
  {
    assert segs[..|segs|] == segs;
  }

  /** A piece that is not the last is full, so a full copy stays inside it. */
  lemma {:induction false} SegmentReaches(head: seq<int>, segs: seq<seq<int>>, i: nat, alen: nat, len: nat)
    requires Packed(head, segs) && i < |segs| && alen <= DATALEN_SEG
    requires len <= |Text(head, segs)| && |Text(head, segs[..i])| + alen <= len
    ensures alen <= |segs[i]|
  {
    TextNext(head, segs, i);
    if i == |segs| - 1 { assert segs[..|segs|] == segs; }
  }

  /** What is received is what was sent, up to the length asked for, however the text was split. */
  method RoundTrip(src: seq<int>, len: nat) returns (dest: seq<int>)
    requires len <= |src|
    ensures dest == src[..len]
  {
    var head, segs := LoadMsg(src);
    dest := StoreMsg(head, segs, len);
  }
}
