/** The mount tree (fs/namespace.c). A `vfsmount` is a number; its fields are in the map `mnt`,
    its child list runs from the most recently attached mount on. */
module Mounts {
  import opened Lists
  import opened Preorder

  /** `root` and `mountpoint` are dentries; a mount that is nobody's child is its own parent. */
  datatype Mnt = Mnt(parent: nat, kids: seq<nat>, mountpoint: nat, root: nat)

  function Kids(n: Mnt): seq<nat> { n.kids }

  function Parent(n: Mnt): nat { n.parent }

  /** The mounts attached on dentry `d`. */
  ghost function On(mnt: map<nat, Mnt>, d: nat): set<nat> {
    set m | m in mnt && mnt[m].parent != m && mnt[m].mountpoint == d
  }

  function Lookup(mounted: map<nat, int>, d: nat): int { if d in mounted then mounted[d] else 0 }

  /** `d_mounted` counts the mounts on each dentry. */
  ghost predicate Counted(mnt: map<nat, Mnt>, mounted: map<nat, int>) {
    forall d :: Lookup(mounted, d) == |On(mnt, d)|
  }

  function Image(f: map<nat, nat>, x: nat): nat { if x in f then f[x] else x }

  /** The images of `l`, last one first: what attaching them one by one leaves in a child list. */
  function Mirror(f: map<nat, nat>, l: seq<nat>): (r: seq<nat>)
    ensures |r| == |l|
  {
    if l == [] then [] else [Image(f, l[|l| - 1])] + Mirror(f, l[..|l| - 1])
  }

  lemma {:induction false} MirrorAt(f: map<nat, nat>, l: seq<nat>, i: nat)
    requires i < |l|
    ensures Mirror(f, l)[i] == Image(f, l[|l| - 1 - i])
  {
    if i > 0 { MirrorAt(f, l[..|l| - 1], i - 1); }
  }

  lemma {:induction false} MirrorGrows(f: map<nat, nat>, f': map<nat, nat>, l: seq<nat>)
    requires forall x :: x in l ==> Image(f', x) == Image(f, x)
    ensures Mirror(f', l) == Mirror(f, l)
  {
    if l != [] { MirrorGrows(f, f', l[..|l| - 1]); }
  }

  lemma {:induction false} MirrorSnoc(f: map<nat, nat>, l: seq<nat>, x: nat)
    ensures Mirror(f, l + [x]) == [Image(f, x)] + Mirror(f, l)
  {
    assert (l + [x])[..|l|] == l;
  }

  // ---- copying ----

  /** `vis` starts at `top` and has the parent of everything else in it. */
  ghost predicate Visited(a: Arena, m0: map<nat, Mnt>, vis: seq<nat>, top: nat) {
    && vis != [] && vis[0] == top
    && (forall x :: x in vis ==> x in a.parent && x in m0 && m0[x].parent == a.parent[x])
    && (forall x :: x in vis[1..] ==> x != top && a.parent[x] in vis)
  }

  /** `f` numbers the copies of `vis`. Nothing that was there has changed, and the copies are all
      that is new. */
  ghost predicate Numbered(m0: map<nat, Mnt>, m1: map<nat, Mnt>, f: map<nat, nat>, vis: seq<nat>) {
    && (forall x :: x in f <==> x in vis)
    && (forall x :: x in m0 ==> x in m1 && m1[x] == m0[x])
    && (forall x :: x in f ==> f[x] !in m0 && f[x] in m1)
    && (forall x, y :: x in f && y in f && f[x] == f[y] ==> x == y)
    && (forall n :: n in m1 ==> n in m0 || n in f.Values)
  }

  /** The copy of `x`: same dentries, the copy of its parent, the copies of its children so far. */
  ghost function CopyNode(a: Arena, m0: map<nat, Mnt>, f: map<nat, nat>, vis: seq<nat>, top: nat, dentry: nat,
          x: nat): Mnt
    requires vis != [] && (forall y :: y in vis ==> y in a.parent) && x in m0
  {
    Mnt(if x == top then Image(f, top) else Image(f, m0[x].parent),
        Mirror(f, ChildrenIn(a, vis[1..], x)),
        m0[x].mountpoint,
        if x == top then dentry else m0[x].root)
  }

  ghost predicate CopyOf(a: Arena, m0: map<nat, Mnt>, m1: map<nat, Mnt>, f: map<nat, nat>, vis: seq<nat>, top: nat,
          dentry: nat)
  {
    && Visited(a, m0, vis, top) && Numbered(m0, m1, f, vis)
    && (forall x :: x in vis ==> m1[f[x]] == CopyNode(a, m0, f, vis, top, dentry, x))
  }

  lemma {:induction false} MembersOf(a: Arena, s: seq<nat>, m: nat)
    requires forall x :: x in s ==> x in a.parent
    ensures forall x :: x in ChildrenIn(a, s, m) ==> x in s && a.parent[x] == m
    ensures (forall x :: x in s ==> a.parent[x] != m) ==> ChildrenIn(a, s, m) == []
  {
    if s != [] {
      MembersOf(a, s[..|s| - 1], m);
      assert forall x :: x in s[..|s| - 1] ==> x in s;
    }
  }

  lemma {:induction false} KidsGrow(a: Arena, f: map<nat, nat>, s: seq<nat>, next: nat, q: nat, x: nat)
    requires (forall y :: y in s ==> y in a.parent) && next in a.parent && next !in s
    ensures forall y :: y in s + [next] ==> y in a.parent
    ensures Mirror(f[next := q], ChildrenIn(a, s + [next], x)) ==
      (if a.parent[next] == x then [q] else []) + Mirror(f, ChildrenIn(a, s, x))
  {
    hide ChildrenIn, Mirror;
    var l := ChildrenIn(a, s, x);
    MembersOf(a, s, x);
    MirrorGrows(f, f[next := q], l);
    ChildrenConcat(a, s, [next], x);
    SingleChild(a, next, x);
    if a.parent[next] == x {
      MirrorSnoc(f[next := q], l, next);
    } else {
      assert l + [] == l && [] + Mirror(f, l) == Mirror(f, l);
    }
  }

  /** The new list of mounts after copying `next` as `q` and attaching it. */
  function Attached(m0: map<nat, Mnt>, m1: map<nat, Mnt>, f: map<nat, nat>, next: nat, q: nat): map<nat, Mnt>
    requires next in m0 && m0[next].parent in f && f[m0[next].parent] in m1
  {
    var pq := f[m0[next].parent];
    m1[q := Mnt(pq, [], m0[next].mountpoint, m0[next].root)][pq := m1[pq].(kids := [q] + m1[pq].kids)]
  }

  lemma {:induction false} NumberMore(m0: map<nat, Mnt>, m1: map<nat, Mnt>, f: map<nat, nat>, vis: seq<nat>,
          next: nat, q: nat)
    requires Numbered(m0, m1, f, vis) && next in m0 && m0[next].parent in f && next !in vis && q !in m1
    ensures Numbered(m0, Attached(m0, m1, f, next, q), f[next := q], vis + [next])
  {
    var f', m2 := f[next := q], Attached(m0, m1, f, next, q);
    forall n | n in m2 ensures n in m0 || n in f'.Values {
      if n in f.Values {
        var x :| x in f && f[x] == n;
        assert f'[x] == n;
      } else if n == q {
        assert f'[next] == n;
      }
    }
  }

  lemma {:induction false} VisitMore(a: Arena, m0: map<nat, Mnt>, vis: seq<nat>, top: nat, next: nat)
    requires Visited(a, m0, vis, top) && next in a.parent && next in m0 && m0[next].parent == a.parent[next]
    requires a.parent[next] in vis && next !in vis
    ensures Visited(a, m0, vis + [next], top) && (vis + [next])[1..] == vis[1..] + [next]
  {
    assert (vis + [next])[1..] == vis[1..] + [next];
    assert top in vis;
  }

  /** One more node is copied and attached under the copy of its parent. */
  lemma {:induction false} CopyMore(a: Arena, m0: map<nat, Mnt>, m1: map<nat, Mnt>, f: map<nat, nat>, vis: seq<nat>,
          top: nat, dentry: nat, next: nat, q: nat)
    requires CopyOf(a, m0, m1, f, vis, top, dentry)
    requires next in a.parent && next in m0 && m0[next].parent == a.parent[next] && a.parent[next] in vis
    requires next !in vis
    requires m0[next].parent in f && f[m0[next].parent] in m1 && q !in m1
    ensures CopyOf(a, m0, Attached(m0, m1, f, next, q), f[next := q], vis + [next], top, dentry)
  {
    NumberMore(m0, m1, f, vis, next, q);
    VisitMore(a, m0, vis, top, next);
    var m2, f', vis' := Attached(m0, m1, f, next, q), f[next := q], vis + [next];
    forall x | x in vis' ensures m2[f'[x]] == CopyNode(a, m0, f', vis', top, dentry, x) {
      CopyNodeMore(a, m0, m1, f, vis, top, dentry, next, q, x);
    }
  }

  lemma {:induction false} CopyNodeMore(a: Arena, m0: map<nat, Mnt>, m1: map<nat, Mnt>, f: map<nat, nat>,
          vis: seq<nat>, top: nat, dentry: nat, next: nat, q: nat, x: nat)
    requires CopyOf(a, m0, m1, f, vis, top, dentry) && x in vis + [next]
    requires next in a.parent && next in m0 && m0[next].parent == a.parent[next] && a.parent[next] in vis
    requires next !in vis
    requires m0[next].parent in f && f[m0[next].parent] in m1 && q !in m1
    ensures var f' := f[next := q]; var m2 := Attached(m0, m1, f, next, q);
      && x in f' && f'[x] in m2 && x in m0 && (forall y :: y in vis + [next] ==> y in a.parent)
      && m2[f'[x]] == CopyNode(a, m0, f', vis + [next], top, dentry, x)
  {
    hide ChildrenIn, Mirror;
    VisitMore(a, m0, vis, top, next);
    assert forall y :: y in vis[1..] ==> y in vis;
    KidsGrow(a, f, vis[1..], next, q, x);
    if x == next {
      NoKidsYet(a, m0, vis, top, next);
      NoImage(f);
    } else {
      CopyNodeKept(a, m0, m1, f, vis, top, dentry, next, q, x);
    }
  }

  lemma {:induction false} NoImage(f: map<nat, nat>)
    ensures Mirror(f, []) == []
  {}

  lemma {:induction false} NoKidsYet(a: Arena, m0: map<nat, Mnt>, vis: seq<nat>, top: nat, next: nat)
    requires Visited(a, m0, vis, top) && next !in vis
    ensures forall y :: y in vis[1..] ==> y in a.parent
    ensures ChildrenIn(a, vis[1..], next) == []
  {
    assert forall y :: y in vis[1..] ==> y in vis;
    MembersOf(a, vis[1..], next);
  }

  lemma {:induction false} CopyNodeKept(a: Arena, m0: map<nat, Mnt>, m1: map<nat, Mnt>, f: map<nat, nat>,
          vis: seq<nat>, top: nat, dentry: nat, next: nat, q: nat, x: nat)
    requires CopyOf(a, m0, m1, f, vis, top, dentry) && x in vis
    requires next in m0 && next !in vis && m0[next].parent in f && f[m0[next].parent] in m1 && q !in m1
    ensures var m2 := Attached(m0, m1, f, next, q);
      m2[f[x]] == m1[f[x]].(kids := (if x == m0[next].parent then [q] else []) + m1[f[x]].kids)
    ensures m1[f[x]] == CopyNode(a, m0, f, vis, top, dentry, x)
    ensures m1[f[x]].parent == (if x == top then Image(f[next := q], top) else Image(f[next := q], m0[x].parent))
  {
    var k := m1[f[x]].kids;
    assert [] + k == k;
    assert x != top ==> x in vis[1..];
  }

  class Namespace {
    var mnt: map<nat, Mnt>
    var mounted: map<nat, int>
    var nextId: nat
    ghost var depth: map<nat, nat>
    ghost var height: nat

    ghost function A(): Arena
      reads this
    {
      Links(Kids, Parent, mnt, depth, height)
    }

    ghost predicate Valid()
      reads this
    {
      Forest(A()) && Counted(mnt, mounted) && forall m :: m in mnt ==> m < nextId
    }

    /** `next_mnt`: the next mount of the walk over the tree of `root`, if there is one. */
    method NextMnt(p: nat, root: nat) returns (r: Option<nat>)
      requires Valid() && p in mnt && Under(A(), root, p)
      ensures r.None? <==> After(A(), root, p) == []
      ensures r.Some? ==>
        r.value in mnt && Under(A(), root, r.value) && After(A(), root, p) == [r.value] + After(A(), root, r.value)
    {
      hide NodeOk, After, Rest, Below, Counted;
      ghost var a := A();
      if mnt[p].kids != [] {
        DownStep(a, root, p);
        return Some(mnt[p].kids[0]);
      }
      NoChildren(a, root, p);
      var cur := p;
      while true
        invariant cur in mnt && Under(a, root, cur) && Rest(a, root, cur) == After(a, root, p)
        decreases depth[cur]
      {
        if cur == root {
          RestOfRoot(a, root);
          return None;
        }
        UnderParent(a, root, cur);
        var next := IndexOf(mnt[mnt[cur].parent].kids, cur) + 1;
        if next != |mnt[mnt[cur].parent].kids| {
          AcrossStep(a, root, cur);
          return Some(mnt[mnt[cur].parent].kids[next]);
        }
        UpStep(a, root, cur);
        cur := mnt[cur].parent;
      }
    }

    /** `clone_mnt`: a new mount of the same file system with nothing on it. */
    method CloneMnt(dentry: nat) returns (q: nat)
      requires Valid()
      modifies this
      ensures Valid() && q == old(nextId) && q !in old(mnt)
      ensures mnt == old(mnt)[q := Mnt(q, [], dentry, dentry)] && mounted == old(mounted)
      ensures A() == WithRoot(old(A()), q)
    {
      hide NodeOk, Counted, Field;
      q := nextId;
      WithRootForest(A(), q);
      AddedLinks(mnt, depth, height, mounted, q, dentry);
      mnt := mnt[q := Mnt(q, [], dentry, dentry)];
      depth := depth[q := 0];
      nextId := nextId + 1;
    }

    /** `attach_mnt`: a tree of mounts goes on `dentry` of mount `p`, which is not in it. */
    method AttachMnt(q: nat, p: nat, dentry: nat)
      requires Valid() && q in mnt && p in mnt && mnt[q].parent == q && !Under(A(), q, p)
      modifies this
      ensures Valid() && nextId == old(nextId) && mnt == Attach(old(mnt), q, p, dentry)
      ensures q != p && mnt.Keys == old(mnt).Keys
      ensures mnt[q] == Mnt(p, old(mnt)[q].kids, dentry, old(mnt)[q].root)
      ensures mnt[p] == old(mnt)[p].(kids := [q] + old(mnt)[p].kids)
      ensures forall x :: x in mnt && x != q && x != p ==> mnt[x] == old(mnt)[x]
      ensures forall x :: x in old(mnt) && !Under(old(A()), q, x) ==> x in depth && depth[x] == old(depth)[x]
      ensures mounted == old(mounted)[dentry := Lookup(old(mounted), dentry) + 1]
    {
      hide NodeOk, Counted, Links, Under, Grafted;
      ghost var g := AttachOk(mnt, depth, height, q, p, dentry);
      AttachCounted(mnt, mounted, q, p, dentry);
      mnt := mnt[q := mnt[q].(parent := p, mountpoint := dentry)];
      mnt := mnt[p := mnt[p].(kids := [q] + mnt[p].kids)];
      mounted := mounted[dentry := Lookup(mounted, dentry) + 1];
      depth, height := g.depth, g.height;
    }

    /** `detach_mnt`. */
    method DetachMnt(m: nat)
      requires Valid() && m in mnt && mnt[m].parent != m
      modifies this
      ensures Valid() && nextId == old(nextId)
      ensures old(mnt)[m].parent in old(mnt) && m in old(mnt)[old(mnt)[m].parent].kids
      ensures mnt == Detach(old(mnt), m) && A() == Detached(old(A()), m)
      ensures mnt.Keys == old(mnt).Keys && mnt[m] == Mnt(m, old(mnt)[m].kids, old(mnt)[m].root, old(mnt)[m].root)
      ensures forall x :: x in mnt && x != m ==>
        mnt[x] == if x == old(mnt)[m].parent then old(mnt)[x].(kids := Without(old(mnt)[x].kids, m)) else old(mnt)[x]
      ensures mounted == old(mounted)[old(mnt)[m].mountpoint := Lookup(old(mounted), old(mnt)[m].mountpoint) - 1]
    {
      hide Forest, Counted, Field, Links, Detached;
      DetachReady(mnt, depth, height, m);
      var p, dentry := mnt[m].parent, mnt[m].mountpoint;
      DetachLinks(mnt, depth, height, m);
      DetachCounted(mnt, mounted, m);
      mnt := mnt[m := mnt[m].(parent := m, mountpoint := mnt[m].root)];
      mnt := mnt[p := mnt[p].(kids := Without(mnt[p].kids, m))];
      mounted := mounted[dentry := Lookup(mounted, dentry) - 1];
    }

    /** The clone and the attachment of one node in `copy_tree`. */
    method CloneUnder(p: nat, q: nat) returns (r: nat)
      requires Valid() && p in mnt && q in mnt
      modifies this
      ensures Valid() && r == old(nextId) && r !in old(mnt)
      ensures mnt == old(mnt)[r := Mnt(q, [], old(mnt)[p].mountpoint,
        old(mnt)[p].root)][q := old(mnt)[q].(kids := [r] + old(mnt)[q].kids)]
      ensures forall x :: x in old(depth) ==> x in depth && depth[x] == old(depth)[x]
    {
      hide Forest, Counted, Field, Under, Attach, WithRoot;
      ghost var a0 := A();
      ForestKeys(a0);
      var node := mnt[p];
      r := CloneMnt(node.root);
      ghost var a1 := A();
      NewRootDepth(a0, r);
      NewLeaf(a1, r);
      CloneAttached(old(mnt), r, q, node.mountpoint, node.root);
      AttachMnt(r, q, node.mountpoint);
      forall x | x in a0.depth ensures x in depth && depth[x] == a0.depth[x] {
        assert x in a1.kids && x != r && !Under(a1, r, x);
        assert a1.depth[x] == a0.depth[x];
      }
    }

    /** Climb from `p` to `to` with `q` climbing through the copies alongside. */
    method Climb(p0: nat, q0: nat, to: nat, ghost a: Arena, ghost m0: map<nat, Mnt>, ghost f: map<nat, nat>,
            ghost vis: seq<nat>, ghost top: nat, ghost dentry: nat)
      returns (q: nat)
      requires Forest(a) && CopyOf(a, m0, mnt, f, vis, top, dentry)
      requires p0 in vis && q0 == f[p0] && p0 in a.kids && Under(a, to, p0) && to in a.kids && Under(a, top, to)
      requires a.kids.Keys == m0.Keys
      ensures to in f && q == f[to]
    {
      hide NodeOk, ChildrenIn, Mirror;
      var p := p0;
      q := q0;
      while p != to
        invariant p in a.kids && p in vis && q == f[p] && Under(a, to, p)
        decreases a.depth[p]
      {
        ClimbFacts(a, m0, mnt, f, vis, top, dentry, to, p);
        p := mnt[p].parent;
        q := mnt[q].parent;
      }
    }

    /** The state of `copy_tree` between two nodes: `vis` has been copied, `p` is its last node and
        `q` the copy of that. */
    ghost predicate Copying(a: Arena, m0: map<nat, Mnt>, f: map<nat, nat>, vis: seq<nat>, top: nat, dentry: nat,
            p: nat, q: nat)
      reads this
    {
      && Forest(a) && a == Links(Kids, Parent, m0, a.depth, a.height) && top in a.kids
      && CopyOf(a, m0, mnt, f, vis, top, dentry)
      && vis != [] && vis[0] == top && vis <= Pre(a, top) && vis[|vis| - 1] == p && p in f && q == f[p]
      && forall x :: x in a.depth ==> x in depth && depth[x] == a.depth[x]
    }

    /** `next_mnt` in the middle of `copy_tree`: the copies do not get in the way. */
    method NextToCopy(p: nat, q: nat, top: nat, ghost a: Arena, ghost m0: map<nat, Mnt>, ghost f: map<nat, nat>,
            ghost vis: seq<nat>, ghost dentry: nat)
      returns (next: Option<nat>)
      requires Valid() && Copying(a, m0, f, vis, top, dentry, p, q)
      ensures p in a.kids && Under(a, top, p) && (next.None? <==> After(a, top, p) == [])
      ensures next.Some? ==> next.value == After(a, top, p)[0]
    {
      hide NodeOk, Counted, Field, CopyOf, Pre, After, Under;
      WalkNext(a, top, vis);
      EmbedsAfter(a, m0, A(), mnt, f, vis, top, dentry, p);
      next := NextMnt(p, top);
    }

    /** One round of the loop of `copy_tree`. */
    method CopyNext(p: nat, q: nat, next: nat, ghost top: nat, ghost a: Arena, ghost m0: map<nat, Mnt>,
            ghost f: map<nat, nat>, ghost vis: seq<nat>, ghost dentry: nat)
      returns (q': nat)
      requires Valid() && Copying(a, m0, f, vis, top, dentry, p, q)
      requires p in a.kids && Under(a, top, p) && After(a, top, p) != [] && next == After(a, top, p)[0]
      modifies this
      ensures Valid() && Copying(a, m0, f[next := q'], vis + [next], top, dentry, next, q')
      ensures |vis| < |Pre(a, top)| && next != top
    {
      hide Forest, Counted, Field, CopyOf, Pre, After, Under;
      WalkNext(a, top, vis);
      NextFacts(a, m0, mnt, f, vis, top, dentry, next);
      q' := Climb(p, q, mnt[next].parent, a, m0, f, vis, top, dentry);
      CopyMore(a, m0, mnt, f, vis, top, dentry, next, nextId);
      ghost var m1, c := mnt, q';
      q' := CloneUnder(next, q');
      assert mnt == Attached(m0, m1, f, next, q');
    }

    /** The copy of the top itself. */
    method StartCopy(top: nat, dentry: nat) returns (q: nat)
      requires Valid() && top in mnt
      modifies this
      ensures Valid() && Copying(old(A()), old(mnt), map[top := q], [top], top, dentry, top, q)
    {
      hide NodeOk, Counted, Field, CopyOf, Pre, Under;
      ghost var a, m0 := A(), mnt;
      q := CloneMnt(dentry);
      RootMoved(mnt, mounted, depth, height, q, mnt[top].mountpoint);
      mnt := mnt[q := mnt[q].(mountpoint := mnt[top].mountpoint)];
      RootCopied(a, m0, mnt, q, top, dentry);
    }

    lemma {:induction false} CopyDone(a: Arena, m0: map<nat, Mnt>, f: map<nat, nat>, vis: seq<nat>, top: nat,
            dentry: nat, p: nat, q: nat)
      requires Copying(a, m0, f, vis, top, dentry, p, q) && p in a.kids && Under(a, top, p) && After(a, top, p) == []
      ensures TreeCopied(a, m0, mnt, f, top, dentry)
    {
      hide NodeOk, Field, CopyOf, Pre, After, Under, TreeCopied;
      WalkNext(a, top, vis);
      CopyFinished(a, m0, mnt, f, top, dentry);
    }

    /** `copy_tree`: a copy of the whole tree of `top`, with `dentry` as its root. */
    method CopyTree(top: nat, dentry: nat) returns (res: nat, ghost f: map<nat, nat>)
      requires Valid() && top in mnt
      modifies this
      ensures Valid() && TreeCopied(old(A()), old(mnt), mnt, f, top, dentry) && res == f[top]
    {
      hide NodeOk, Counted, Field, Pre, After, Under, TreeCopied, Copying, Links;
      ghost var a, m0 := A(), mnt;
      var p := top;
      var q := StartCopy(top, dentry);
      res := q;
      f := map[top := q];
      ghost var vis := [top];
      var next := NextToCopy(p, q, top, a, m0, f, vis, dentry);
      while next.Some?
        invariant Valid() && Copying(a, m0, f, vis, top, dentry, p, q) && top in f && res == f[top]
        invariant p in a.kids && Under(a, top, p) && (next.None? <==> After(a, top, p) == [])
        invariant next.Some? ==> next.value == After(a, top, p)[0]
        decreases |Pre(a, top)| - |vis|
      {
        q := CopyNext(p, q, next.value, top, a, m0, f, vis, dentry);
        p := next.value;
        f, vis := f[p := q], vis + [p];
        next := NextToCopy(p, q, top, a, m0, f, vis, dentry);
      }
      CopyDone(a, m0, f, vis, top, dentry, p, q);
    }

    /** The first loop of `umount_tree`: the mounts of the tree, last one of the walk first. */
    method CollectKill(top: nat) returns (kill: seq<nat>)
      requires Valid() && top in mnt
      ensures kill == Reversed(Pre(A(), top))
    {
      hide NodeOk, Counted, Pre, After, Under;
      ghost var a := A();
      ghost var vis := [top];
      StartWalk(a, top);
      kill := [top];
      var p := Some(top);
      p := NextMnt(top, top);
      while p.Some?
        invariant vis != [] && vis <= Pre(a, top) && kill == Reversed(vis)
        invariant var last := vis[|vis| - 1];
          && last in mnt && Under(a, top, last)
          && (p.None? <==> After(a, top, last) == []) && (p.Some? ==> p.value == After(a, top, last)[0])
        decreases |Pre(a, top)| - |vis|
      {
        WalkNext(a, top, vis);
        ReversedSnoc(vis, p.value);
        kill := [p.value] + kill;
        vis := vis + [p.value];
        p := NextMnt(p.value, top);
      }
      WalkNext(a, top, vis);
    }

    /** `umount_tree`: every mount of the tree is taken off. `order` is the order in which that was
        done and `tables` the mounts before, between and after. */
    method UmountTree(top: nat) returns (ghost order: seq<nat>, ghost tables: seq<map<nat, Mnt>>)
      requires Valid() && top in mnt
      modifies this
      ensures Valid() && order == Reversed(Pre(old(A()), top))
      ensures Torn(old(mnt), mnt, Elems(Pre(old(A()), top)))
      ensures TakenDown(tables, order) && tables[0] == old(mnt) && tables[|order|] == mnt
    {
      hide NodeOk, Counted, Field, Pre, Under, Torn, TakenDown;
      ghost var a, m0 := A(), mnt;
      var kill := CollectKill(top);
      ghost var j: nat := |kill|;
      order, tables := [], [mnt];
      NothingTorn(m0);
      NothingDown(mnt);
      assert Pre(a, top)[..j] == Pre(a, top) && Elems(Pre(a, top)[j..]) == {};
      while kill != []
        invariant Valid() && mnt.Keys == m0.Keys && j <= |Pre(a, top)|
        invariant kill == Reversed(Pre(a, top)[..j]) && order + kill == Reversed(Pre(a, top))
        invariant Torn(m0, mnt, Elems(Pre(a, top)[j..]))
        invariant TakenDown(tables, order) && |tables| == |order| + 1 && tables[0] == m0 && tables[|order|] == mnt
        decreases |kill|
      {
        KillHead(Pre(a, top), j);
        TearFacts(a, m0, mnt, top, j - 1);
        var m := kill[0];
        assert order + kill == (order + [m]) + kill[1..];
        kill := kill[1..];
        if mnt[m].parent != m {
          TearOne(a, m0, mnt, top, j - 1);
          DetachMnt(m);
        } else {
          TearRoot(a, m0, mnt, top, j - 1);
        }
        OneDown(tables, order, m, mnt);
        order, tables := order + [m], tables + [mnt];
        j := j - 1;
      }
      KillEmpty(Pre(a, top), j);
      assert order + [] == order;
    }
  }

  /** Mount `m` is taken off, with nothing mounted on it any more; a root has nowhere to be taken
      off from. */
  ghost predicate TookOff(before: map<nat, Mnt>, m: nat, after: map<nat, Mnt>) {
    && m in before && before[m].kids == []
    && if before[m].parent == m then after == before
       else before[m].parent in before && m in before[before[m].parent].kids && after == Detach(before, m)
  }

  ghost predicate TakenDown(tables: seq<map<nat, Mnt>>, order: seq<nat>) {
    |tables| == |order| + 1 && forall i :: 0 <= i < |order| ==> TookOff(tables[i], order[i], tables[i + 1])
  }

  lemma {:induction false} NothingDown(mnt: map<nat, Mnt>)
    ensures TakenDown([mnt], [])
  {}

  lemma {:induction false} OneDown(tables: seq<map<nat, Mnt>>, order: seq<nat>, m: nat, mnt: map<nat, Mnt>)
    requires TakenDown(tables, order) && |tables| == |order| + 1 && TookOff(tables[|order|], m, mnt)
    ensures TakenDown(tables + [mnt], order + [m])
  {
    hide TookOff;
    var t, o := tables + [mnt], order + [m];
    forall i | 0 <= i < |o| ensures TookOff(t[i], o[i], t[i + 1]) {
      if i < |order| { assert t[i] == tables[i] && t[i + 1] == tables[i + 1] && o[i] == order[i]; }
    }
  }

  function Reversed(s: seq<nat>): (r: seq<nat>)
    ensures |r| == |s| && forall i :: 0 <= i < |s| ==> r[i] == s[|s| - 1 - i]
  {
    seq(|s|, i requires 0 <= i < |s| => s[|s| - 1 - i])
  }

  lemma {:induction false} ReversedSnoc(s: seq<nat>, x: nat)
    ensures Reversed(s + [x]) == [x] + Reversed(s)
  {}

  lemma {:induction false} StartWalk(a: Arena, top: nat)
    requires Forest(a) && top in a.kids
    ensures [top] <= Pre(a, top) && Under(a, top, top) && Reversed([top]) == [top]
  {
    PreIs(a, top);
  }

  /** A mount that has been taken off. */
  function Loose(x: nat, n: Mnt): Mnt { Mnt(x, [], if n.parent == x then n.mountpoint else n.root, n.root) }

  /** The table when the mounts in `dead` have been taken off and nothing else has changed. */
  ghost predicate Torn(m0: map<nat, Mnt>, m1: map<nat, Mnt>, dead: set<nat>) {
    && m1.Keys == m0.Keys
    && forall x :: x in m0 ==> m1[x] == if x in dead then Loose(x, m0[x]) else m0[x].(kids := Minus(m0[x].kids, dead))
  }

  lemma {:induction false} NothingTorn(m0: map<nat, Mnt>)
    ensures Torn(m0, m0, {})
  {
    forall x | x in m0 ensures Minus(m0[x].kids, {}) == m0[x].kids { MinusNothing(m0[x].kids, {}); }
  }

  lemma {:induction false} KillHead(pre: seq<nat>, j: nat)
    requires j <= |pre| && Reversed(pre[..j]) != []
    ensures j > 0 && Reversed(pre[..j])[0] == pre[j - 1] && Reversed(pre[..j])[1..] == Reversed(pre[..j - 1])
  {}

  lemma {:induction false} KillEmpty(pre: seq<nat>, j: nat)
    requires j <= |pre| && Reversed(pre[..j]) == []
    ensures j == 0 && pre[j..] == pre
  {}

  /** When the `j`-th mount of the walk comes up, the mounts on it are gone and its parent is not. */
  lemma {:induction false} TearFacts(a: Arena, m0: map<nat, Mnt>, m1: map<nat, Mnt>, top: nat, j: nat)
    requires Forest(a) && a == Links(Kids, Parent, m0, a.depth, a.height) && top in m0 && j < |Pre(a, top)|
    requires Torn(m0, m1, Elems(Pre(a, top)[j + 1..]))
    ensures var m := Pre(a, top)[j]; var dead := Elems(Pre(a, top)[j + 1..]);
      && m in m0 && m !in dead && m1[m] == m0[m].(kids := [])
      && Elems(Pre(a, top)[j..]) == dead + {m}
      && (m0[m].parent != m ==> m0[m].parent !in dead && m0[m].parent in m0)
  {
    hide Pre, Under, NodeOk, Elems, Field, Minus;
    var m, dead := Pre(a, top)[j], Elems(Pre(a, top)[j + 1..]);
    WalkSplit(a, top, j);
    MinusAll(m0[m].kids, dead);
    if m0[m].parent != m {
      ParentAlive(a, top, j);
      assert Pre(a, top)[j..] == [m] + Pre(a, top)[j + 1..];
    }
  }

  lemma {:induction false} WalkSplit(a: Arena, top: nat, j: nat)
    requires Forest(a) && top in a.kids && j < |Pre(a, top)|
    ensures var m := Pre(a, top)[j];
      && m in a.kids && m !in Pre(a, top)[j + 1..]
      && Elems(Pre(a, top)[j..]) == Elems(Pre(a, top)[j + 1..]) + {m}
      && forall c :: c in a.kids[m] ==> c in Pre(a, top)[j + 1..]
  {
    hide Pre, Under, NodeOk;
    var pre := Pre(a, top);
    var m := pre[j];
    WalkAt(a, top, j);
    PreOnce(a, top);
    assert pre == pre[..j + 1] + pre[j + 1..] && pre[..j + 1][j] == m;
    OnceSplit(pre[..j + 1], pre[j + 1..], m);
    assert pre[j..] == [m] + pre[j + 1..];
    forall c | c in a.kids[m] ensures c in pre[j + 1..] { ChildAfterParent(a, top, j, c); }
  }

  lemma {:induction false} ParentAlive(a: Arena, top: nat, j: nat)
    requires Forest(a) && top in a.kids && j < |Pre(a, top)| && Pre(a, top)[j] in a.kids
    requires a.parent[Pre(a, top)[j]] != Pre(a, top)[j]
    ensures var p := a.parent[Pre(a, top)[j]]; p in a.kids && p !in Pre(a, top)[j..]
  {
    hide Pre, PreList;
    var pre := Pre(a, top);
    var m := pre[j];
    PreOnce(a, top);
    PreIs(a, top);
    LaterAtDepth(a, m);
    if j == 0 {
      if a.parent[m] in pre { PreUnder(a, top, a.parent[m]); RootIsTop(a, top, a.parent[m]); }
      assert pre[0..] == pre;
    } else {
      ParentBefore(a, top, j);
      assert pre == pre[..j] + pre[j..];
      OnceSplit(pre[..j], pre[j..], a.parent[m]);
    }
  }

  lemma {:induction false} TearRoot(a: Arena, m0: map<nat, Mnt>, m1: map<nat, Mnt>, top: nat, j: nat)
    requires Forest(a) && a == Links(Kids, Parent, m0, a.depth, a.height) && top in m0 && j < |Pre(a, top)|
    requires Torn(m0, m1, Elems(Pre(a, top)[j + 1..])) && Pre(a, top)[j] in m0
    requires m0[Pre(a, top)[j]].parent == Pre(a, top)[j]
    ensures Torn(m0, m1, Elems(Pre(a, top)[j..]))
  {
    hide Pre;
    TearFacts(a, m0, m1, top, j);
    var m, dead := Pre(a, top)[j], Elems(Pre(a, top)[j + 1..]);
    LoneNode(a, m);
    TearOthers(m0, m1, dead, m, m);
  }

  /** Every mount but `p` looks the same whether or not `m` counts as gone. */
  lemma {:induction false} TearOthers(m0: map<nat, Mnt>, m1: map<nat, Mnt>, dead: set<nat>, m: nat, p: nat)
    requires Torn(m0, m1, dead) && forall x :: x in m0 && x != p ==> m !in m0[x].kids
    ensures forall x :: x in m0 && x != p && x != m ==>
      m1[x] == if x in dead + {m} then Loose(x, m0[x]) else m0[x].(kids := Minus(m0[x].kids, dead + {m}))
  {
    forall x | x in m0 && x != p ensures Minus(m0[x].kids, dead + {m}) == Minus(m0[x].kids, dead) {
      MinusSame(m0[x].kids, dead, m);
    }
  }

  lemma {:induction false} TearOne(a: Arena, m0: map<nat, Mnt>, m1: map<nat, Mnt>, top: nat, j: nat)
    requires Forest(a) && a == Links(Kids, Parent, m0, a.depth, a.height) && top in m0 && j < |Pre(a, top)|
    requires Torn(m0, m1, Elems(Pre(a, top)[j + 1..])) && Pre(a, top)[j] in m0
    requires m0[Pre(a, top)[j]].parent != Pre(a, top)[j]
    ensures var m := Pre(a, top)[j];
      && m in m1 && m1[m].parent in m1 && m in m1[m1[m].parent].kids
      && Torn(m0, Detach(m1, m), Elems(Pre(a, top)[j..]))
  {
    hide Pre, Without, Minus;
    TearFacts(a, m0, m1, top, j);
    var m, dead := Pre(a, top)[j], Elems(Pre(a, top)[j + 1..]);
    var p := m0[m].parent;
    ParentHas(a, m);
    OnlyParent(a, m);
    assert NodeOk(a, p);
    MinusOne(m0[p].kids, dead, m);
    TearOthers(m0, m1, dead, m, p);
  }

  lemma {:induction false} OnlyParent(a: Arena, m: nat)
    requires Forest(a) && m in a.kids
    ensures forall x :: x in a.kids && x != a.parent[m] ==> m !in a.kids[x]
  {
    forall x | x in a.kids && x != a.parent[m] ensures m !in a.kids[x] { assert NodeOk(a, x); }
  }

  /** `f` maps the tree of `top` one to one onto new mounts that have the same dentries, the
      corresponding parents and the corresponding children in reverse order. The copy of the top
      is a root of its own with the given dentry. */
  ghost predicate TreeCopied(a: Arena, m0: map<nat, Mnt>, m1: map<nat, Mnt>, f: map<nat, nat>, top: nat, dentry: nat)
    requires Forest(a) && top in a.kids
  {
    && Numbered(m0, m1, f, Pre(a, top)) && top in f
    && forall x :: x in Pre(a, top) ==>
         && x in m0
         && m1[f[x]] == Mnt(if x == top then f[top] else Image(f, m0[x].parent), Mirror(f, m0[x].kids),
             m0[x].mountpoint, if x == top then dentry else m0[x].root)
  }

  function Attach(mnt: map<nat, Mnt>, q: nat, p: nat, dentry: nat): map<nat, Mnt>
    requires q in mnt && p in mnt && q != p
  {
    mnt[q := mnt[q].(parent := p, mountpoint := dentry)][p := mnt[p].(kids := [q] + mnt[p].kids)]
  }

  function Detach(mnt: map<nat, Mnt>, m: nat): map<nat, Mnt>
    requires m in mnt && mnt[m].parent in mnt && m in mnt[mnt[m].parent].kids
  {
    var p := mnt[m].parent;
    var d := mnt[m := mnt[m].(parent := m, mountpoint := mnt[m].root)];
    d[p := d[p].(kids := Without(mnt[p].kids, m))]
  }

  lemma {:induction false} AddedLinks(mnt: map<nat, Mnt>, depth: map<nat, nat>, height: nat, mounted: map<nat, int>,
          q: nat, dentry: nat)
    requires q !in mnt
    ensures Links(Kids, Parent, mnt[q := Mnt(q, [], dentry, dentry)], depth[q := 0], height) ==
      WithRoot(Links(Kids, Parent, mnt, depth, height), q)
    ensures Counted(mnt, mounted) ==> Counted(mnt[q := Mnt(q, [], dentry, dentry)], mounted)
  {
    hide Field;
    var m := mnt[q := Mnt(q, [], dentry, dentry)];
    forall d ensures On(m, d) == On(mnt, d) {}
    LinksUpdate(Kids, Parent, mnt, q, Mnt(q, [], dentry, dentry));
  }

  lemma {:induction false} CloneAttached(m0: map<nat, Mnt>, r: nat, q: nat, dentry: nat, root: nat)
    requires r !in m0 && q in m0
    ensures Attach(m0[r := Mnt(r, [], root, root)], r, q, dentry) ==
      m0[r := Mnt(q, [], dentry, root)][q := m0[q].(kids := [r] + m0[q].kids)]
  {}

  lemma {:induction false} ForestKeys(a: Arena)
    requires Forest(a)
    ensures a.depth.Keys == a.kids.Keys
  {}

  lemma {:induction false} NewRootDepth(a: Arena, q: nat)
    requires q !in a.depth
    ensures forall x :: x in a.depth ==> x in WithRoot(a, q).depth && WithRoot(a, q).depth[x] == a.depth[x]
  {}

  lemma {:induction false} PutBack<T>(m: map<nat, T>, q: nat, v: T, p: nat)
    requires p in m && p != q
    ensures m[q := v][p := m[p]] == m[q := v]
  {}

  lemma {:induction false} AttachLinks(mnt: map<nat, Mnt>, depth: map<nat, nat>, height: nat, depth': map<nat, nat>,
          height': nat, q: nat, p: nat, dentry: nat)
    requires q in mnt && p in mnt && q != p
    ensures var a, b := Links(Kids, Parent, mnt, depth, height),
      Links(Kids, Parent, Attach(mnt, q, p, dentry), depth', height');
      b == Arena(a.kids[p := [q] + mnt[p].kids], a.parent[q := p], depth', height')
  {
    hide Field;
    var m1 := mnt[q := mnt[q].(parent := p, mountpoint := dentry)];
    LinksUpdate(Kids, Parent, mnt, q, m1[q]);
    LinksUpdate(Kids, Parent, m1, p, mnt[p].(kids := [q] + mnt[p].kids));
    assert Field(Kids, mnt)[q := mnt[q].kids] == Field(Kids, mnt);
    PutBack(Field(Parent, mnt), q, p, p);
  }

  /** The depths that witness a forest after the attachment. */
  lemma {:induction false} AttachOk(mnt: map<nat, Mnt>, depth: map<nat, nat>, height: nat, q: nat, p: nat, dentry: nat)
    returns (g: Arena)
    requires q in mnt && p in mnt && mnt[q].parent == q && Forest(Links(Kids, Parent, mnt, depth, height))
    requires !Under(Links(Kids, Parent, mnt, depth, height), q, p)
    ensures q != p && Forest(Links(Kids, Parent, Attach(mnt, q, p, dentry), g.depth, g.height))
    ensures forall x :: x in mnt ==> x in Links(Kids, Parent, mnt, depth, height).kids
    ensures forall x :: x in mnt && !Under(Links(Kids, Parent, mnt, depth, height), q, x) ==>
      x in g.depth && x in depth && g.depth[x] == depth[x]
  {
    hide NodeOk, Field, Under, GraftDepth;
    var a := Links(Kids, Parent, mnt, depth, height);
    g := Grafted(a, q, p);
    GraftedForest(a, q, p);
    GraftTop(a, q, p);
    AttachLinks(mnt, depth, height, g.depth, g.height, q, p, dentry);
    GraftKeeps(a, q, p);
  }

  lemma {:induction false} GraftKeeps(a: Arena, q: nat, p: nat)
    requires Forest(a) && q in a.kids && p in a.kids
    ensures forall x :: x in a.kids && !Under(a, q, x) ==>
      x in Grafted(a, q, p).depth && Grafted(a, q, p).depth[x] == a.depth[x]
  {}

  lemma {:induction false} AttachCounted(mnt: map<nat, Mnt>, mounted: map<nat, int>, q: nat, p: nat, dentry: nat)
    requires q in mnt && p in mnt && q != p && mnt[q].parent == q && Counted(mnt, mounted)
    ensures Counted(Attach(mnt, q, p, dentry), mounted[dentry := Lookup(mounted, dentry) + 1])
  {
    hide On, Attach;
    forall d ensures Lookup(mounted[dentry := Lookup(mounted, dentry) + 1], d) == |On(Attach(mnt, q, p, dentry), d)| {
      AttachOn(mnt, q, p, dentry, d);
      assert Lookup(mounted, d) == |On(mnt, d)|;
    }
  }

  lemma {:induction false} AttachOn(mnt: map<nat, Mnt>, q: nat, p: nat, dentry: nat, d: nat)
    requires q in mnt && p in mnt && q != p && mnt[q].parent == q
    ensures |On(Attach(mnt, q, p, dentry), d)| == |On(mnt, d)| + if d == dentry then 1 else 0
  {
    OneMoreOn(mnt, Attach(mnt, q, p, dentry), q, d);
  }

  /** Only `q` changed its place: it was a root and is attached now. */
  lemma {:induction false} OneMoreOn(m0: map<nat, Mnt>, m1: map<nat, Mnt>, q: nat, d: nat)
    requires q in m0 && m1.Keys == m0.Keys && m0[q].parent == q && m1[q].parent != q
    requires forall x :: x in m0 && x != q ==> m1[x].parent == m0[x].parent && m1[x].mountpoint == m0[x].mountpoint
    ensures |On(m1, d)| == |On(m0, d)| + if d == m1[q].mountpoint then 1 else 0
  {
    var s := On(m0, d);
    assert q !in s;
    assert On(m1, d) == if d == m1[q].mountpoint then s + {q} else s;
  }

  lemma {:induction false} DetachReady(mnt: map<nat, Mnt>, depth: map<nat, nat>, height: nat, m: nat)
    requires Forest(Links(Kids, Parent, mnt, depth, height)) && m in mnt && mnt[m].parent != m
    ensures mnt[m].parent in mnt && m in mnt[mnt[m].parent].kids
    ensures var a := Links(Kids, Parent, mnt, depth, height);
      && m in a.parent && a.parent[m] in a.kids && m in a.kids[a.parent[m]]
      && Forest(Detached(a, m))
  {
    hide NodeOk, Field;
    DetachedForest(Links(Kids, Parent, mnt, depth, height), m);
  }

  lemma {:induction false} DetachLinks(mnt: map<nat, Mnt>, depth: map<nat, nat>, height: nat, m: nat)
    requires m in mnt && mnt[m].parent != m && mnt[m].parent in mnt && m in mnt[mnt[m].parent].kids
    ensures Links(Kids, Parent, Detach(mnt, m), depth, height) == Detached(Links(Kids, Parent, mnt, depth, height), m)
  {
    hide Field, Without;
    var p := mnt[m].parent;
    var d := mnt[m := mnt[m].(parent := m, mountpoint := mnt[m].root)];
    LinksUpdate(Kids, Parent, mnt, m, d[m]);
    LinksUpdate(Kids, Parent, d, p, d[p].(kids := Without(mnt[p].kids, m)));
    assert Field(Kids, mnt)[m := mnt[m].kids] == Field(Kids, mnt);
    PutBack(Field(Parent, mnt), m, m, p);
  }

  lemma {:induction false} DetachCounted(mnt: map<nat, Mnt>, mounted: map<nat, int>, m: nat)
    requires m in mnt && mnt[m].parent != m && mnt[m].parent in mnt && m in mnt[mnt[m].parent].kids
    requires Counted(mnt, mounted)
    ensures Counted(Detach(mnt, m), mounted[mnt[m].mountpoint := Lookup(mounted, mnt[m].mountpoint) - 1])
  {
    hide On, Detach, Without;
    var n, dentry := Detach(mnt, m), mnt[m].mountpoint;
    forall d ensures Lookup(mounted[dentry := Lookup(mounted, dentry) - 1], d) == |On(n, d)| {
      DetachOn(mnt, m, d);
      assert Lookup(mounted, d) == |On(mnt, d)|;
    }
  }

  lemma {:induction false} DetachOn(mnt: map<nat, Mnt>, m: nat, d: nat)
    requires m in mnt && mnt[m].parent != m && mnt[m].parent in mnt && m in mnt[mnt[m].parent].kids
    ensures |On(mnt, d)| == |On(Detach(mnt, m), d)| + if d == mnt[m].mountpoint then 1 else 0
  {
    hide Without;
    OneMoreOn(Detach(mnt, m), mnt, m, d);
  }

  lemma {:induction false} NewLeaf(a: Arena, r: nat)
    requires Forest(a) && r in a.kids && a.kids[r] == []
    ensures forall x :: x in a.kids && x != r ==> !Under(a, r, x)
  {
    forall x | x in a.kids && x != r ensures !Under(a, r, x) { LeafAlone(a, r, x); }
  }

  lemma {:induction false} NoChildren(a: Arena, root: nat, p: nat)
    requires Forest(a) && p in a.kids && Under(a, root, p) && a.kids[p] == []
    ensures After(a, root, p) == Rest(a, root, p)
  {
    assert Below(a, p) == [];
  }

  lemma {:induction false} RestOfRoot(a: Arena, root: nat)
    requires Forest(a) && root in a.kids && Under(a, root, root)
    ensures Rest(a, root, root) == []
  {}

  lemma {:induction false} UnderParent(a: Arena, root: nat, x: nat)
    requires Forest(a) && x in a.kids && Under(a, root, x) && x != root
    ensures a.parent[x] != x && a.parent[x] in a.kids && x in a.kids[a.parent[x]]
    ensures Later(a, x) == a.kids[a.parent[x]][IndexOf(a.kids[a.parent[x]], x) + 1..]
  {
    ParentHas(a, x);
  }

  /** The parent of a copied node other than the top is copied, and the copies agree. */
  lemma {:induction false} ClimbFacts(a: Arena, m0: map<nat, Mnt>, m1: map<nat, Mnt>, f: map<nat, nat>, vis: seq<nat>,
          top: nat, dentry: nat, to: nat, p: nat)
    requires Forest(a) && CopyOf(a, m0, m1, f, vis, top, dentry) && a.kids.Keys == m0.Keys
    requires p in vis && p in a.kids && to in a.kids && Under(a, to, p) && p != to && Under(a, top, to)
    ensures p in m1 && f[p] in m1 && a.parent[p] in a.kids && a.parent[p] in vis && Under(a, to, a.parent[p])
    ensures m1[p].parent == a.parent[p] && m1[f[p]].parent == f[a.parent[p]] && a.depth[a.parent[p]] < a.depth[p]
  {
    RootIsTop(a, to, p);
    RootIsTop(a, top, to);
    LaterAtDepth(a, p);
    RootIsTop(a, to, a.parent[p]);
    assert p != top;
    assert p in vis[1..];
  }

  lemma {:induction false} RootCopied(a: Arena, m0: map<nat, Mnt>, m1: map<nat, Mnt>, q: nat, top: nat, dentry: nat)
    requires Forest(a) && a == Links(Kids, Parent, m0, a.depth, a.height) && top in m0 && q !in m0
    requires m1 == m0[q := Mnt(q, [], m0[top].mountpoint, dentry)]
    ensures CopyOf(a, m0, m1, map[top := q], [top], top, dentry) && [top] <= Pre(a, top) && Under(a, top, top)
  {
    var f := map[top := q];
    assert [top][1..] == [];
    assert f[top] in f.Values;
    PreIs(a, top);
  }

  /** Giving a root another mountpoint changes neither the links nor the counts. */
  lemma {:induction false} RootMoved(m: map<nat, Mnt>, mounted: map<nat, int>, depth: map<nat, nat>, height: nat,
          q: nat, d: nat)
    requires q in m && m[q].parent == q && Counted(m, mounted)
    ensures Links(Kids, Parent, m[q := m[q].(mountpoint := d)], depth, height) == Links(Kids, Parent, m, depth, height)
    ensures Counted(m[q := m[q].(mountpoint := d)], mounted)
  {
    hide Field;
    LinksUpdate(Kids, Parent, m, q, m[q].(mountpoint := d));
    assert Field(Kids, m)[q := m[q].kids] == Field(Kids, m) && Field(Parent, m)[q := q] == Field(Parent, m);
    forall e ensures On(m[q := m[q].(mountpoint := d)], e) == On(m, e) {}
  }

  /** The walk over the old tree is the same in the table that holds the copies. */
  lemma {:induction false} EmbedsAfter(a: Arena, m0: map<nat, Mnt>, b: Arena, m1: map<nat, Mnt>, f: map<nat, nat>,
          vis: seq<nat>, top: nat, dentry: nat, p: nat)
    requires Forest(a) && a == Links(Kids, Parent, m0, a.depth, a.height) && Forest(b)
    requires b == Links(Kids, Parent, m1, b.depth, b.height)
    requires CopyOf(a, m0, m1, f, vis, top, dentry) && p in m0 && Under(a, top, p)
    requires forall x :: x in a.depth ==> x in b.depth && b.depth[x] == a.depth[x]
    ensures Under(b, top, p) && After(b, top, p) == After(a, top, p)
  {
    assert Embedded(a, b);
    SameAfter(a, b, top, p);
  }

  /** The parent of the next node has been copied. */
  lemma {:induction false} NextFacts(a: Arena, m0: map<nat, Mnt>, m1: map<nat, Mnt>, f: map<nat, nat>, vis: seq<nat>,
          top: nat, dentry: nat, n: nat)
    requires a == Links(Kids, Parent, m0, a.depth, a.height) && CopyOf(a, m0, m1, f, vis, top, dentry)
    requires n in a.kids && a.parent[n] in vis
    ensures n in m0 && n in m1 && m1[n] == m0[n] && m0[n].parent == a.parent[n] && a.parent[n] in f
    ensures f[a.parent[n]] in m1
  {}

  lemma {:induction false} CopyFinished(a: Arena, m0: map<nat, Mnt>, m1: map<nat, Mnt>, f: map<nat, nat>, top: nat,
          dentry: nat)
    requires Forest(a) && a == Links(Kids, Parent, m0, a.depth, a.height) && top in a.kids
    requires CopyOf(a, m0, m1, f, Pre(a, top), top, dentry)
    ensures TreeCopied(a, m0, m1, f, top, dentry)
  {
    hide ChildrenIn, Mirror, Under, Field, Pre, Below, Forest;
    var pre := Pre(a, top);
    PreIs(a, top);
    assert pre[1..] == Below(a, top);
    forall x | x in pre ensures x in m0 && ChildrenIn(a, pre[1..], x) == m0[x].kids {
      PickChildren(a, top, x);
    }
  }

  // ---- order and balance ----

  /** A mount comes after its ancestors in the walk ... */
  lemma {:induction false} AncestorBefore(a: Arena, top: nat, i: nat, j: nat)
    requires Forest(a) && top in a.kids && i < |Pre(a, top)| && j < |Pre(a, top)| && i != j && Pre(a, top)[j] in a.kids
    requires Under(a, Pre(a, top)[i], Pre(a, top)[j])
    ensures i < j
    decreases a.depth[Pre(a, top)[j]]
  {
    hide Pre;
    var x, y := Pre(a, top)[i], Pre(a, top)[j];
    PreOnce(a, top);
    UnderDef(a, x, y);
    if j == 0 {
      TopFirst(a, top);
      WalkAt(a, top, i);
      RootIsTop(a, top, x);
      RootIsTop(a, x, top);
      OneAncestorPerDepth(a, top, x, x) by { UnderDef(a, x, x); }
    } else {
      ParentBefore(a, top, j);
      var k :| 0 <= k < j && Pre(a, top)[..j][k] == a.parent[y];
      if i != k { AncestorBefore(a, top, i, k); }
    }
  }

  lemma {:induction false} TopFirst(a: Arena, top: nat)
    requires Forest(a) && top in a.kids
    ensures |Pre(a, top)| > 0 && Pre(a, top)[0] == top
  {}

  /** ... so `umount_tree` takes every mount off after all mounts below it. */
  lemma {:induction false} DescendantsFirst(a: Arena, top: nat, i: nat, j: nat)
    requires Forest(a) && top in a.kids && i < |Pre(a, top)| && j < |Pre(a, top)| && i != j
    requires var order := Reversed(Pre(a, top)); order[j] in a.kids && Under(a, order[i], order[j])
    ensures j < i
  {
    hide Pre, Under;
    var n := |Pre(a, top)|;
    AncestorBefore(a, top, n - 1 - i, n - 1 - j);
  }

  ghost predicate CopyMade(a: Arena, m0: map<nat, Mnt>, b: Arena, m1: map<nat, Mnt>, f: map<nat, nat>, top: nat,
          dentry: nat)
  {
    && Forest(a) && a == Links(Kids, Parent, m0, a.depth, a.height) && Forest(b)
    && b == Links(Kids, Parent, m1, b.depth, b.height)
    && top in m0 && TreeCopied(a, m0, m1, f, top, dentry)
  }

  lemma {:induction false} CopyIsUnder(a: Arena, m0: map<nat, Mnt>, b: Arena, m1: map<nat, Mnt>, f: map<nat, nat>,
          top: nat, dentry: nat, x: nat)
    requires CopyMade(a, m0, b, m1, f, top, dentry) && x in m0 && Under(a, top, x)
    ensures x in f && f[x] in m1 && Under(b, f[top], f[x])
    decreases a.depth[x]
  {
    hide Field, Pre, Under;
    PreIsSubtree(a, top, x);
    UnderDef(a, top, x);
    UnderDef(b, f[top], f[x]);
    if x != top {
      CopyIsUnder(a, m0, b, m1, f, top, dentry, m0[x].parent);
    }
  }

  lemma {:induction false} OldIsNotUnder(a: Arena, m0: map<nat, Mnt>, b: Arena, m1: map<nat, Mnt>, f: map<nat, nat>,
          top: nat, dentry: nat, y: nat)
    requires CopyMade(a, m0, b, m1, f, top, dentry) && y in m0
    ensures y in m1 && !Under(b, f[top], y)
    decreases a.depth[y]
  {
    hide Field, Pre, Under;
    UnderDef(a, top, y);
    UnderDef(b, f[top], y);
    PreIsSubtree(a, top, top);
    UnderDef(a, top, top);
    if m0[y].parent != y { OldIsNotUnder(a, m0, b, m1, f, top, dentry, m0[y].parent); }
  }

  lemma {:induction false} CopiesAreDead(a: Arena, m0: map<nat, Mnt>, b: Arena, m1: map<nat, Mnt>, f: map<nat, nat>,
          top: nat, dentry: nat)
    requires CopyMade(a, m0, b, m1, f, top, dentry) && f[top] in m1
    ensures forall y :: y in m0 ==> y in m1 && y !in Elems(Pre(b, f[top]))
    ensures forall x :: x in f ==> f[x] in Elems(Pre(b, f[top]))
  {
    hide Field, Pre, Under;
    var dead := Elems(Pre(b, f[top]));
    forall y | y in m0 ensures y in m1 && y !in dead {
      OldIsNotUnder(a, m0, b, m1, f, top, dentry, y);
      PreIsSubtree(b, f[top], y);
    }
    forall x | x in f ensures f[x] in dead {
      PreIsSubtree(a, top, x);
      CopyIsUnder(a, m0, b, m1, f, top, dentry, x);
      PreIsSubtree(b, f[top], f[x]);
    }
  }

  /** Copying a tree and taking the copy off again leaves every old mount and every count as it was. */
  lemma {:induction false} CopyThenUmount(a: Arena, m0: map<nat, Mnt>, b: Arena, m1: map<nat, Mnt>, f: map<nat, nat>,
          top: nat, dentry: nat, m2: map<nat, Mnt>)
    requires CopyMade(a, m0, b, m1, f, top, dentry) && f[top] in m1 && Torn(m1, m2, Elems(Pre(b, f[top])))
    ensures forall y :: y in m0 ==> y in m2 && m2[y] == m0[y]
    ensures forall d :: On(m2, d) == On(m0, d)
  {
    hide Field, Pre, Under, On, Forest, Minus, Mirror, Elems, Torn;
    CopiesAreDead(a, m0, b, m1, f, top, dentry);
    OldRestored(a, m0, m1, m2, Elems(Pre(b, f[top])));
    NewAreLoose(m0, m1, f, Pre(a, top), m2, Elems(Pre(b, f[top])));
    forall d ensures On(m2, d) == On(m0, d) { SameOn(m0, m2, d); }
  }

  lemma {:induction false} NewAreLoose(m0: map<nat, Mnt>, m1: map<nat, Mnt>, f: map<nat, nat>, vis: seq<nat>,
          m2: map<nat, Mnt>, dead: set<nat>)
    requires Numbered(m0, m1, f, vis) && Torn(m1, m2, dead) && forall x :: x in f ==> f[x] in dead
    ensures forall n :: n in m2 ==> n in m0 || m2[n].parent == n
  {
    hide Minus;
    forall n | n in m2 && n !in m0 ensures m2[n].parent == n {
      assert n in f.Values;
    }
  }

  lemma {:induction false} OldRestored(a: Arena, m0: map<nat, Mnt>, m1: map<nat, Mnt>, m2: map<nat, Mnt>,
          dead: set<nat>)
    requires Forest(a) && a == Links(Kids, Parent, m0, a.depth, a.height) && Torn(m1, m2, dead)
    requires forall y :: y in m0 ==> y in m1 && m1[y] == m0[y] && y !in dead
    ensures forall y :: y in m0 ==> y in m2 && m2[y] == m0[y]
  {
    hide Field, Minus;
    forall y | y in m0 ensures y in m2 && m2[y] == m0[y] {
      assert NodeOk(a, y);
      MinusNothing(m0[y].kids, dead);
    }
  }

  lemma {:induction false} SameOn(m0: map<nat, Mnt>, m2: map<nat, Mnt>, d: nat)
    requires forall y :: y in m0 ==> y in m2 && m2[y] == m0[y]
    requires forall n :: n in m2 ==> n in m0 || m2[n].parent == n
    ensures On(m2, d) == On(m0, d)
  {}
}
