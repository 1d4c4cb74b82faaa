/** The table of System V IPC identifiers (ipc/util.c, ipc/util.h): slots, sequence numbers and the
    ids built from both. */
module IpcIds {
  import opened Lists

  const IPCMNI := 32768
  const SEQ_MULTIPLIER := IPCMNI
  const INT_MAX := 0x7fff_ffff
  const USHRT_MAX := 0xffff
  const SEQ_MAX := if INT_MAX / SEQ_MULTIPLIER > USHRT_MAX then USHRT_MAX else INT_MAX / SEQ_MULTIPLIER

  datatype Perm = Perm(key: int, seqno: nat)

  function BuildId(lid: nat, seqno: nat): nat { SEQ_MULTIPLIER * seqno + lid }

  /** Built ids fit an int, and slot and sequence number can be read off them. */
  lemma {:induction false} IdRoundTrip(lid: nat, seqno: nat)
    requires lid < IPCMNI && seqno <= SEQ_MAX
    ensures BuildId(lid, seqno) <= INT_MAX
    ensures BuildId(lid, seqno) % SEQ_MULTIPLIER == lid && BuildId(lid, seqno) / SEQ_MULTIPLIER == seqno
  {}

  function Live(s: seq<Option<Perm>>): nat {
    if s == [] then 0 else Live(s[..|s| - 1]) + if s[|s| - 1].Some? then 1 else 0
  }

  lemma {:induction false} LiveChange(s: seq<Option<Perm>>, i: nat, x: Option<Perm>)
    requires i < |s|
    ensures Live(s[i := x]) == Live(s) - (if s[i].Some? then 1 else 0) + if x.Some? then 1 else 0
  {
    var n := |s| - 1;
    if i == n {
      assert s[i := x][..n] == s[..n];
    } else {
      LiveChange(s[..n], i, x);
      assert s[i := x][..n] == s[..n][i := x];
    }
  }

  lemma {:induction false} LiveGrown(s: seq<Option<Perm>>, t: seq<Option<Perm>>)
    requires |s| <= |t| && t[..|s|] == s && forall i :: |s| <= i < |t| ==> t[i].None?
    ensures Live(t) == Live(s)
    decreases |t|
  {
    if |t| == |s| {
      assert t[..|s|] == t;
    } else {
      assert t[..|t| - 1][..|s|] == s;
      LiveGrown(s, t[..|t| - 1]);
    }
  }

  /** `m` is the greatest slot in use, or -1. */
  ghost predicate MaxLive(s: seq<Option<Perm>>, m: int) {
    && -1 <= m < |s| && (m >= 0 ==> s[m].Some?)
    && forall i :: m < i < |s| ==> s[i].None?
  }

  /** The ids given out carry the sequence numbers in turn ... */
  ghost predicate IssuedOk(issued: seq<nat>, seqno: nat) {
    && seqno == |issued| % (SEQ_MAX + 1)
    && forall k :: 0 <= k < |issued| ==> issued[k] <= INT_MAX && issued[k] / SEQ_MULTIPLIER == k % (SEQ_MAX + 1)
  }

  /** ... and each live slot has its own. */
  ghost predicate BornOk(s: seq<Option<Perm>>, issued: seq<nat>, born: map<nat, nat>) {
    forall i :: 0 <= i < |s| && s[i].Some? ==>
      i in born && born[i] < |issued| && issued[born[i]] == BuildId(i, s[i].value.seqno)
  }

  /** The counter is 16 bits wide, and starts over after SEQ_MAX. */
  function NextSeq(seqno: nat): nat {
    var n := (seqno + 1) % (USHRT_MAX + 1);
    if n > SEQ_MAX then 0 else n
  }

  lemma {:induction false} IssuedNext(issued: seq<nat>, seqno: nat, lid: nat)
    requires IssuedOk(issued, seqno) && lid < IPCMNI
    ensures IssuedOk(issued + [BuildId(lid, seqno)], NextSeq(seqno))
  {
    IdRoundTrip(lid, seqno);
  }

  class Ids {
    var entries: array<Option<Perm>>
    var inUse: int
    var maxId: int
    var seqno: nat
    /** The ids given out so far, in order, and for each live slot which one is its own. */
    ghost var issued: seq<nat>
    ghost var born: map<nat, nat>

    ghost predicate Valid()
      reads this, entries
    {
      && entries.Length <= IPCMNI && inUse == Live(entries[..]) && MaxLive(entries[..], maxId)
      && IssuedOk(issued, seqno) && BornOk(entries[..], issued, born)
    }

    /** ipc_init_ids. */
    constructor (size: nat)
      ensures Valid() && fresh(entries) && issued == [] && inUse == 0 && maxId == -1
      ensures entries.Length == (if size > IPCMNI then IPCMNI else size)
      ensures forall i :: 0 <= i < entries.Length ==> entries[i].None?
    {
      entries := new Option<Perm>[if size > IPCMNI then IPCMNI else size](i => None);
      inUse, maxId, seqno, issued, born := 0, -1, 0, [], map[];
      new;
      LiveGrown([], entries[..]);
    }

    /** ipc_findkey looks no further than the greatest slot in use, and misses nothing. */
    method FindKey(key: int) returns (id: int)
      requires Valid()
      ensures id == -1 || (0 <= id < entries.Length && entries[id].Some? && entries[id].value.key == key)
      ensures forall i :: 0 <= i < entries.Length && (id == -1 || i < id) ==>
        entries[i].None? || entries[i].value.key != key
    {
      id := 0;
      while id <= maxId
        invariant 0 <= id <= maxId + 1
        invariant forall i :: 0 <= i < id ==> entries[i].None? || entries[i].value.key != key
      {
        if entries[id].Some? && entries[id].value.key == key { return; }
        id := id + 1;
      }
      id := -1;
      assert forall i :: maxId < i < entries.Length ==> entries[..][i].None?;
    }

    /** grow_ary: a larger array with the old entries in it, if there is memory for one. */
    method GrowAry(newsize: int, allocOk: bool) returns (limit: int)
      requires Valid()
      modifies this`entries
      ensures Valid() && limit <= entries.Length && (entries == old(entries) || fresh(entries))
      ensures var n := if newsize > IPCMNI then IPCMNI else newsize;
        limit == if n <= old(entries).Length || allocOk then n else old(entries).Length
      ensures old(entries).Length <= entries.Length && entries[..old(entries).Length] == old(entries[..])
      ensures forall i :: old(entries).Length <= i < entries.Length ==> entries[i].None?
    {
      var n := if newsize > IPCMNI then IPCMNI else newsize;
      if n <= entries.Length { return n; }
      if !allocOk { return entries.Length; }
      var old' := entries;
      var bigger := new Option<Perm>[n](i reads old' => if 0 <= i < old'.Length then old'[i] else None);
      assert bigger[..old'.Length] == old'[..];
      LiveGrown(old'[..], bigger[..]);
      entries := bigger;
      limit := n;
    }

    /** Puts a new object into a free slot. */
    method Install(lid: nat, key: int)
      requires Valid() && lid < entries.Length && entries[lid].None?
      modifies this, entries
      ensures Valid() && entries == old(entries) && entries[..] == old(entries[..])[lid := Some(Perm(key, old(seqno)))]
      ensures issued == old(issued) + [BuildId(lid, old(seqno))] && inUse == old(inUse) + 1
      ensures born == old(born)[lid := |old(issued)|]
    {
      hide IssuedOk, Live;
      ghost var was := entries[..];
      IssuedNext(issued, seqno, lid);
      LiveChange(was, lid, Some(Perm(key, seqno)));
      inUse := inUse + 1;
      if lid > maxId { maxId := lid; }
      var p := Perm(key, seqno);
      seqno := NextSeq(seqno);
      entries[lid] := Some(p);
      assert entries[..] == was[lid := Some(p)];
      born := born[lid := |issued|];
      issued := issued + [BuildId(lid, p.seqno)];
    }

    /** ipc_addid: the first free slot below the limit, with the next sequence number. */
    method AddId(key: int, size: int, allocOk: bool) returns (lid: int)
      requires Valid()
      modifies this, entries
      ensures Valid() && (entries == old(entries) || fresh(entries)) && -1 <= lid < entries.Length
      ensures old(entries).Length <= entries.Length
      ensures forall i :: 0 <= i < old(entries).Length && i != lid ==> entries[i] == old(entries[..])[i]
      ensures lid == -1 ==> issued == old(issued) && inUse == old(inUse) && seqno == old(seqno)
      ensures lid == -1 ==> forall i :: 0 <= i < old(entries).Length && i < size ==> entries[i].Some?
      ensures lid >= 0 ==>
        && (lid < old(entries).Length ==> old(entries[..])[lid].None?)
        && (forall i :: 0 <= i < lid ==> entries[i].Some?)
        && entries[lid] == Some(Perm(key, old(seqno))) && issued == old(issued) + [BuildId(lid, old(seqno))]
        && inUse == old(inUse) + 1 && born == old(born)[lid := |old(issued)|]
    {
      hide IssuedOk, Live, BornOk, MaxLive;
      var limit := GrowAry(size, allocOk);
      ghost var was := entries[..];
      lid := 0;
      while lid < limit && entries[lid].Some?
        invariant 0 <= lid && (lid <= limit || lid == 0) && forall i :: 0 <= i < lid ==> entries[i].Some?
      {
        lid := lid + 1;
      }
      if lid >= limit {
        assert forall i :: 0 <= i < old(entries).Length ==> was[i] == was[..old(entries).Length][i];
        return -1;
      }
      Install(lid, key);
      assert forall i :: 0 <= i < |was| ==> entries[..][i] == was[lid := entries[lid]][i];
      assert forall i :: 0 <= i < old(entries).Length ==> was[i] == was[..old(entries).Length][i];
    }

    /** ipc_rmid: the slot is free again, and the greatest slot in use is found anew. */
    method RmId(id: nat)
      requires Valid() && id % SEQ_MULTIPLIER < entries.Length && entries[id % SEQ_MULTIPLIER].Some?
      modifies this, entries
      ensures Valid() && entries == old(entries) && entries[..] == old(entries[..])[id % SEQ_MULTIPLIER := None]
      ensures inUse == old(inUse) - 1 && issued == old(issued) && seqno == old(seqno) && born == old(born)
    {
      hide IssuedOk, Live;
      var lid := id % SEQ_MULTIPLIER;
      ghost var was := entries[..];
      LiveChange(was, lid, None);
      entries[lid] := None;
      assert entries[..] == was[lid := None];
      inUse := inUse - 1;
      if lid == maxId {
        var m := lid - 1;
        while m >= 0 && entries[m].None?
          invariant -1 <= m < lid && forall i :: m < i < entries.Length ==> entries[i].None?
        {
          m := m - 1;
        }
        maxId := m;
      }
    }

    /** ipc_lock and ipc_checkid: the object an id stands for. */
    method LookUp(id: nat) returns (p: Option<Perm>)
      requires Valid()
      ensures p.Some? <==> Stands(id)
      ensures var lid := id % SEQ_MULTIPLIER;
        p.Some? <==> lid < entries.Length && entries[lid].Some? && entries[lid].value.seqno == id / SEQ_MULTIPLIER
      ensures p.Some? ==> entries[id % SEQ_MULTIPLIER] == p
    {
      var lid := id % SEQ_MULTIPLIER;
      if lid >= entries.Length { return None; }
      p := entries[lid];
      if p.Some? && id / SEQ_MULTIPLIER != p.value.seqno { p := None; }
    }

    ghost predicate Stands(id: nat)
      reads this, entries
    {
      && id % SEQ_MULTIPLIER < entries.Length && entries[id % SEQ_MULTIPLIER].Some?
      && entries[id % SEQ_MULTIPLIER].value.seqno == id / SEQ_MULTIPLIER
    }

    /** Ids given out fewer than SEQ_MAX + 1 creations apart are different. */
    lemma {:induction false} IdsDiffer(j: nat, k: nat)
      requires Valid() && j < k < |issued| && k - j <= SEQ_MAX
      ensures issued[j] != issued[k]
    {
      assert j % (SEQ_MAX + 1) != k % (SEQ_MAX + 1);
    }

    /** The id given out for creation `j` stands for an object exactly if its slot holds one that was
        created a multiple of SEQ_MAX + 1 creations from it, such as its own. */
    lemma {:induction false} StandsIff(j: nat)
      requires Valid() && j < |issued|
      ensures var lid := issued[j] % SEQ_MULTIPLIER;
        Stands(issued[j]) <==>
          && lid < entries.Length && entries[lid].Some?
          && lid in born && born[lid] % (SEQ_MAX + 1) == j % (SEQ_MAX + 1)
    {
      var lid := issued[j] % SEQ_MULTIPLIER;
      if lid < entries.Length && entries[lid].Some? {
        assert entries[..][lid].Some?;
        SeqnoOf(lid, entries[lid].value.seqno);
      }
    }
  }

  lemma {:induction false} SeqnoOf(lid: nat, seqno: nat)
    requires lid < IPCMNI
    ensures BuildId(lid, seqno) / SEQ_MULTIPLIER == seqno
  {}
}
