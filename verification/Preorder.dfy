/** Trees kept as parent and child links, and their stackless preorder walk: from a node go to
    its first child, else to the next sibling of the nearest ancestor that has one. Both the
    mount tree (fs/namespace.c) and the dentry cache (fs/dcache.c) walk their trees this way. */
module Preorder {
  import opened Lists

  /** `depth` and `height` witness that the links form a forest. */
  datatype Arena = Arena(kids: map<nat, seq<nat>>, parent: map<nat, nat>, depth: map<nat, nat>, height: nat)

  // ---- the links of a table of records ----

  /** One field of every record of a table. */
  ghost function Field<R, T>(f: R -> T, table: map<nat, R>): (r: map<nat, T>)
    ensures r.Keys == table.Keys && forall x :: x in table ==> r[x] == f(table[x])
  {
    map x | x in table :: f(table[x])
  }

  /** The links of a table whose records have child lists and parents. */
  ghost function Links<R>(kids: R -> seq<nat>, parent: R -> nat, table: map<nat, R>, depth: map<nat, nat>,
          height: nat): Arena
  {
    Arena(Field(kids, table), Field(parent, table), depth, height)
  }

  /** Writing one record writes one entry of the links. */
  lemma {:induction false} LinksUpdate<R>(kids: R -> seq<nat>, parent: R -> nat, table: map<nat, R>, x: nat, n: R)
    ensures Field(kids, table[x := n]) == Field(kids, table)[x := kids(n)]
    ensures Field(parent, table[x := n]) == Field(parent, table)[x := parent(n)]
  {}

  // ---- forests ----

  ghost predicate NodeOk(a: Arena, p: nat)
    requires p in a.kids && a.parent.Keys == a.kids.Keys && a.depth.Keys == a.kids.Keys
  {
    && a.depth[p] <= a.height
    && a.parent[p] in a.kids
    && (a.parent[p] != p ==> p in a.kids[a.parent[p]])
    && NoDuplicates(a.kids[p])
    && forall c :: c in a.kids[p] ==> c in a.kids && c != p && a.parent[c] == p && a.depth[c] == a.depth[p] + 1
  }

  /** Parent and child links agree, and depth grows along them. */
  ghost predicate Forest(a: Arena) {
    && a.parent.Keys == a.kids.Keys && a.depth.Keys == a.kids.Keys
    && forall p {:trigger NodeOk(a, p)} :: p in a.kids ==> NodeOk(a, p)
  }

  ghost predicate AtDepth(a: Arena, l: seq<nat>, d: nat) {
    d <= a.height + 1 && forall c :: c in l ==> c in a.kids && c in a.depth && a.depth[c] == d
  }

  /** The nodes of the subtree of `p`, parents first and siblings in order. */
  ghost function Pre(a: Arena, p: nat): seq<nat>
    requires Forest(a) && p in a.kids
    decreases a.height + 1 - a.depth[p], 0
  {
    assert NodeOk(a, p);
    [p] + PreList(a, a.kids[p], a.depth[p] + 1)
  }

  /** The subtrees of the nodes in `l`, one after the other. */
  ghost function PreList(a: Arena, l: seq<nat>, d: nat): seq<nat>
    requires Forest(a) && AtDepth(a, l, d)
    decreases a.height + 1 - d, 1 + |l|
  {
    if l == [] then [] else assert NodeOk(a, l[0]); Pre(a, l[0]) + PreList(a, l[1..], d)
  }

  /** The descendants of `p`. */
  ghost function Below(a: Arena, p: nat): seq<nat>
    requires Forest(a) && p in a.kids
  {
    assert NodeOk(a, p);
    PreList(a, a.kids[p], a.depth[p] + 1)
  }

  /** `x` lies in the subtree of `root`: following parents from it leads there. */
  ghost predicate Under(a: Arena, root: nat, x: nat)
    requires Forest(a) && x in a.kids
    decreases a.depth[x]
  {
    x == root || (NodeOk(a, x) && a.parent[x] != x && (assert NodeOk(a, a.parent[x]); Under(a, root, a.parent[x])))
  }

  /** The siblings that follow `x`. */
  ghost function Later(a: Arena, x: nat): seq<nat>
    requires Forest(a) && x in a.kids && a.parent[x] != x
  {
    assert NodeOk(a, x);
    a.kids[a.parent[x]][IndexOf(a.kids[a.parent[x]], x) + 1..]
  }

  lemma {:induction false} LaterAtDepth(a: Arena, x: nat)
    requires Forest(a) && x in a.kids && a.parent[x] != x
    ensures AtDepth(a, Later(a, x), a.depth[x]) && a.depth[x] > 0
    ensures a.parent[x] in a.kids && a.depth[a.parent[x]] == a.depth[x] - 1
  {
    assert NodeOk(a, x);
    assert NodeOk(a, a.parent[x]);
    var k := a.kids[a.parent[x]];
    assert forall c :: c in Later(a, x) ==> c in k;
  }

  /** What a walk from `root` still has to visit once the subtree of `x` is finished. */
  ghost function Rest(a: Arena, root: nat, x: nat): seq<nat>
    requires Forest(a) && x in a.kids && Under(a, root, x)
    decreases a.depth[x]
  {
    if x == root then []
    else
      LaterAtDepth(a, x);
      PreList(a, Later(a, x), a.depth[x]) + Rest(a, root, a.parent[x])
  }

  /** What it still has to visit when it is at `x`. */
  ghost function After(a: Arena, root: nat, x: nat): seq<nat>
    requires Forest(a) && x in a.kids && Under(a, root, x)
  {
    Below(a, x) + Rest(a, root, x)
  }

  lemma {:induction false} PreListCons(a: Arena, c: nat, l: seq<nat>, d: nat)
    requires Forest(a) && AtDepth(a, [c] + l, d)
    ensures AtDepth(a, l, d) && c in a.kids && PreList(a, [c] + l, d) == Pre(a, c) + PreList(a, l, d)
  {
    assert ([c] + l)[1..] == l;
    assert forall x :: x in l ==> x in [c] + l;
    assert c in [c] + l;
  }

  lemma {:induction false} ChildFacts(a: Arena, p: nat, i: nat)
    requires Forest(a) && p in a.kids && i < |a.kids[p]|
    ensures var c := a.kids[p][i];
      && c in a.kids && c != p && a.parent[c] == p && a.depth[c] == a.depth[p] + 1
      && IndexOf(a.kids[p], c) == i && Later(a, c) == a.kids[p][i + 1..]
  {
    assert NodeOk(a, p);
    var c := a.kids[p][i];
    assert c in a.kids[p];
    assert NodeOk(a, c);
  }

  lemma {:induction false} UnderChild(a: Arena, root: nat, p: nat, c: nat)
    requires Forest(a) && p in a.kids && Under(a, root, p) && c in a.kids && a.parent[c] == p && c != p
    ensures Under(a, root, c) && c != root && a.depth[c] == a.depth[p] + 1
  {
    assert NodeOk(a, c);
    LaterAtDepth(a, c);
    RootIsTop(a, root, p);
  }

  /** The rest after a child is its later siblings and the rest after its parent. */
  lemma {:induction false} RestOfChild(a: Arena, root: nat, p: nat, i: nat)
    requires Forest(a) && p in a.kids && Under(a, root, p) && i < |a.kids[p]|
    ensures var c := a.kids[p][i];
      && c in a.kids && Under(a, root, c) && AtDepth(a, a.kids[p][i + 1..], a.depth[p] + 1)
      && Rest(a, root, c) == PreList(a, a.kids[p][i + 1..], a.depth[p] + 1) + Rest(a, root, p)
  {
    ChildFacts(a, p, i);
    UnderChild(a, root, p, a.kids[p][i]);
    LaterAtDepth(a, a.kids[p][i]);
  }

  lemma {:induction false} PreListFrom(a: Arena, p: nat, i: nat)
    requires Forest(a) && p in a.kids && i < |a.kids[p]|
    ensures var c := a.kids[p][i];
      && c in a.kids && AtDepth(a, a.kids[p][i..], a.depth[p] + 1) && AtDepth(a, a.kids[p][i + 1..], a.depth[p] + 1)
      && PreList(a, a.kids[p][i..], a.depth[p] + 1) == [c] +
          (Below(a, c) + PreList(a, a.kids[p][i + 1..], a.depth[p] + 1))
  {
    hide PreList, Under;
    assert NodeOk(a, p);
    ChildFacts(a, p, i);
    var k := a.kids[p];
    assert k[i..] == [k[i]] + k[i + 1..];
    assert forall x :: x in k[i..] ==> x in k;
    PreListCons(a, k[i], k[i + 1..], a.depth[p] + 1);
    var b, t := Below(a, k[i]), PreList(a, k[i + 1..], a.depth[p] + 1);
    assert ([k[i]] + b) + t == [k[i]] + (b + t);
  }

  /** With a child, the walk goes to the first one. */
  lemma {:induction false} DownStep(a: Arena, root: nat, x: nat)
    requires Forest(a) && x in a.kids && Under(a, root, x) && a.kids[x] != []
    ensures var c := a.kids[x][0];
      c in a.kids && Under(a, root, c) && After(a, root, x) == [c] + After(a, root, c)
  {
    hide PreList, Pre, Under, NodeOk;
    RestOfChild(a, root, x, 0);
    PreListFrom(a, x, 0);
    assert a.kids[x][0..] == a.kids[x];
  }

  lemma {:induction false} RootIsTop(a: Arena, root: nat, x: nat)
    requires Forest(a) && x in a.kids && Under(a, root, x)
    ensures root in a.kids && a.depth[root] <= a.depth[x]
    decreases a.depth[x]
  {
    if x != root {
      LaterAtDepth(a, x);
      RootIsTop(a, root, a.parent[x]);
    }
  }

  /** Without a later sibling, what is left after `x` is what is left after its parent. */
  lemma {:induction false} UpStep(a: Arena, root: nat, x: nat)
    requires Forest(a) && x in a.kids && Under(a, root, x) && x != root && Later(a, x) == []
    ensures a.parent[x] in a.kids && Under(a, root, a.parent[x]) && Rest(a, root, x) == Rest(a, root, a.parent[x])
    ensures a.depth[a.parent[x]] < a.depth[x]
  {
    LaterAtDepth(a, x);
  }

  /** With a later sibling, the walk continues there. */
  lemma {:induction false} AcrossStep(a: Arena, root: nat, x: nat)
    requires Forest(a) && x in a.kids && Under(a, root, x) && x != root && Later(a, x) != []
    ensures var c := Later(a, x)[0];
      c in a.kids && Under(a, root, c) && Rest(a, root, x) == [c] + After(a, root, c)
  {
    hide PreList, Pre, NodeOk, Below, Rest;
    var p := a.parent[x];
    LaterAtDepth(a, x);
    ParentHas(a, x);
    var i := IndexOf(a.kids[p], x);
    RestOfChild(a, root, p, i);
    RestOfChild(a, root, p, i + 1);
    PreListFrom(a, p, i + 1);
    var c := a.kids[p][i + 1];
    var b, t, r := Below(a, c), PreList(a, a.kids[p][i + 2..], a.depth[p] + 1), Rest(a, root, p);
    assert ([c] + (b + t)) + r == [c] + (b + (t + r));
  }

  lemma {:induction false} ParentHas(a: Arena, x: nat)
    requires Forest(a) && x in a.kids && a.parent[x] != x
    ensures a.parent[x] in a.kids && x in a.kids[a.parent[x]]
  {
    assert NodeOk(a, x);
  }

  // ---- the whole walk ----

  lemma {:induction false} RestHead(a: Arena, root: nat, x: nat)
    requires Forest(a) && x in a.kids && Under(a, root, x) && Rest(a, root, x) != []
    ensures var c := Rest(a, root, x)[0];
      c in a.kids && Under(a, root, c) && Rest(a, root, x) == [c] + After(a, root, c)
    decreases a.depth[x]
  {
    if Later(a, x) == [] {
      UpStep(a, root, x);
      RestHead(a, root, a.parent[x]);
    } else {
      AcrossStep(a, root, x);
    }
  }

  lemma {:induction false} AfterHead(a: Arena, root: nat, x: nat)
    requires Forest(a) && x in a.kids && Under(a, root, x) && After(a, root, x) != []
    ensures var c := After(a, root, x)[0];
      c in a.kids && Under(a, root, c) && After(a, root, x) == [c] + After(a, root, c)
  {
    hide Rest;
    if a.kids[x] != [] {
      DownStep(a, root, x);
    } else {
      RestHead(a, root, x);
    }
  }

  /** At the `k`-th node of the walk, what is left is the rest of the preorder. */
  lemma {:induction false} WalkAt(a: Arena, root: nat, k: nat)
    requires Forest(a) && root in a.kids && k < |Pre(a, root)|
    ensures var x := Pre(a, root)[k];
      x in a.kids && Under(a, root, x) && Pre(a, root)[k + 1..] == After(a, root, x)
    decreases k
  {
    if k == 0 {
      assert Pre(a, root)[1..] == Below(a, root);
    } else {
      hide Pre, After, Under;
      WalkAt(a, root, k - 1);
      var x := Pre(a, root)[k - 1];
      assert Pre(a, root)[k..][0] == Pre(a, root)[k];
      AfterHead(a, root, x);
      assert Pre(a, root)[k + 1..] == Pre(a, root)[k..][1..];
    }
  }

  lemma {:induction false} OneAncestorPerDepth(a: Arena, r: nat, s: nat, x: nat)
    requires Forest(a) && x in a.kids && Under(a, r, x) && Under(a, s, x)
    requires r in a.kids && s in a.kids && a.depth[r] == a.depth[s]
    ensures r == s
    decreases a.depth[x]
  {
    RootIsTop(a, r, x);
    RootIsTop(a, s, x);
    if x != r && x != s {
      LaterAtDepth(a, x);
      OneAncestorPerDepth(a, r, s, a.parent[x]);
    } else if x != r {
      LaterAtDepth(a, x);
      RootIsTop(a, r, a.parent[x]);
    } else if x != s {
      LaterAtDepth(a, x);
      RootIsTop(a, s, a.parent[x]);
    }
  }

  /** The preorder of a node lists only nodes of its subtree ... */
  lemma {:induction false} PreUnder(a: Arena, p: nat, x: nat)
    requires Forest(a) && p in a.kids && x in Pre(a, p)
    ensures x in a.kids && Under(a, p, x)
  {
    var k :| 0 <= k < |Pre(a, p)| && Pre(a, p)[k] == x;
    WalkAt(a, p, k);
  }

  lemma {:induction false} ListMember(a: Arena, l: seq<nat>, d: nat, x: nat)
    requires Forest(a) && AtDepth(a, l, d) && x in PreList(a, l, d)
    ensures exists i :: 0 <= i < |l| && l[i] in a.kids && x in Pre(a, l[i])
    decreases |l|
  {
    assert NodeOk(a, l[0]);
    if x !in Pre(a, l[0]) {
      ListMember(a, l[1..], d, x);
      var i :| 0 <= i < |l[1..]| && l[1..][i] in a.kids && x in Pre(a, l[1..][i]);
      assert l[i + 1] == l[1..][i];
    }
  }

  /** ... and each of them once. */
  lemma {:induction false} PreOnce(a: Arena, p: nat)
    requires Forest(a) && p in a.kids
    ensures NoDuplicates(Pre(a, p))
    decreases a.height + 1 - a.depth[p], 0
  {
    assert NodeOk(a, p);
    PreListOnce(a, a.kids[p], a.depth[p] + 1);
    if p in Below(a, p) { ListDeep(a, a.kids[p], a.depth[p] + 1, p); }
    ConcatOnce([p], Below(a, p));
  }

  lemma {:induction false} ListDeep(a: Arena, l: seq<nat>, d: nat, x: nat)
    requires Forest(a) && AtDepth(a, l, d) && x in PreList(a, l, d)
    ensures x in a.kids && a.depth[x] >= d
  {
    ListMember(a, l, d, x);
    var i :| 0 <= i < |l| && l[i] in a.kids && x in Pre(a, l[i]);
    PreUnder(a, l[i], x);
    RootIsTop(a, l[i], x);
  }

  lemma {:induction false} PreListOnce(a: Arena, l: seq<nat>, d: nat)
    requires Forest(a) && AtDepth(a, l, d) && NoDuplicates(l)
    ensures NoDuplicates(PreList(a, l, d))
    decreases a.height + 1 - d, 1 + |l|
  {
    if l != [] {
      assert NodeOk(a, l[0]);
      PreOnce(a, l[0]);
      PreListOnce(a, l[1..], d);
      forall x | x in Pre(a, l[0]) ensures x !in PreList(a, l[1..], d) {
        if x in PreList(a, l[1..], d) {
          ListMember(a, l[1..], d, x);
          var i :| 0 <= i < |l[1..]| && l[1..][i] in a.kids && x in Pre(a, l[1..][i]);
          assert l[i + 1] == l[1..][i];
          PreUnder(a, l[0], x);
          PreUnder(a, l[1..][i], x);
          OneAncestorPerDepth(a, l[0], l[1..][i], x);
        }
      }
      ConcatOnce(Pre(a, l[0]), PreList(a, l[1..], d));
    }
  }

  /** A subtree is closed under children: a child follows its parent in the walk. */
  lemma {:induction false} ChildAfterParent(a: Arena, root: nat, k: nat, c: nat)
    requires Forest(a) && root in a.kids && k < |Pre(a, root)| && Pre(a, root)[k] in a.kids
    requires c in a.kids[Pre(a, root)[k]]
    ensures c in Pre(a, root)[k + 1..]
  {
    WalkAt(a, root, k);
    var p := Pre(a, root)[k];
    var i := IndexOf(a.kids[p], c);
    InPreList(a, p, i);
  }

  lemma {:induction false} InPreList(a: Arena, p: nat, i: nat)
    requires Forest(a) && p in a.kids && i < |a.kids[p]|
    ensures a.kids[p][i] in Below(a, p)
  {
    InPreListFrom(a, p, 0, i);
    assert a.kids[p][0..] == a.kids[p];
  }

  lemma {:induction false} InPreListFrom(a: Arena, p: nat, j: nat, i: nat)
    requires Forest(a) && p in a.kids && j <= i < |a.kids[p]|
    ensures AtDepth(a, a.kids[p][j..], a.depth[p] + 1) && a.kids[p][i] in PreList(a, a.kids[p][j..], a.depth[p] + 1)
    decreases i - j
  {
    PreListFrom(a, p, j);
    if j < i { InPreListFrom(a, p, j + 1, i); }
  }

  /** The preorder lists exactly the subtree. */
  lemma {:induction false} PreIsSubtree(a: Arena, root: nat, x: nat)
    requires Forest(a) && root in a.kids && x in a.kids
    ensures x in Pre(a, root) <==> Under(a, root, x)
    decreases a.depth[x]
  {
    if x in Pre(a, root) { PreUnder(a, root, x); }
    if Under(a, root, x) && x != root {
      ParentHas(a, x);
      LaterAtDepth(a, x);
      PreIsSubtree(a, root, a.parent[x]);
      var k :| 0 <= k < |Pre(a, root)| && Pre(a, root)[k] == a.parent[x];
      ChildAfterParent(a, root, k, x);
    }
  }

  /** The next node hangs below the current one or one of its ancestors. */
  lemma {:induction false} NextParentAbove(a: Arena, root: nat, x: nat)
    requires Forest(a) && x in a.kids && Under(a, root, x) && After(a, root, x) != []
    ensures var c := After(a, root, x)[0];
      && c in a.kids && a.parent[c] != c && a.parent[c] in a.kids
      && Under(a, a.parent[c], x) && Under(a, root, a.parent[c])
  {
    if a.kids[x] != [] {
      DownStep(a, root, x);
      ChildFacts(a, x, 0);
    } else {
      RestParentAbove(a, root, x);
    }
  }

  lemma {:induction false} RestParentAbove(a: Arena, root: nat, x: nat)
    requires Forest(a) && x in a.kids && Under(a, root, x) && Rest(a, root, x) != []
    ensures var c := Rest(a, root, x)[0];
      && c in a.kids && a.parent[c] != c && a.parent[c] in a.kids
      && Under(a, a.parent[c], x) && Under(a, root, a.parent[c])
    decreases a.depth[x]
  {
    ParentHas(a, x);
    if Later(a, x) == [] {
      UpStep(a, root, x);
      RestParentAbove(a, root, a.parent[x]);
      var c := Rest(a, root, x)[0];
      UnderStep(a, a.parent[c], x);
    } else {
      AcrossStep(a, root, x);
      var p := a.parent[x];
      LaterAtDepth(a, x);
      ChildFacts(a, p, IndexOf(a.kids[p], x) + 1);
      UnderStep(a, p, x);
    }
  }

  lemma {:induction false} UnderStep(a: Arena, root: nat, x: nat)
    requires Forest(a) && x in a.kids && a.parent[x] != x && a.parent[x] in a.kids && Under(a, root, a.parent[x])
    ensures Under(a, root, x)
  {
    LaterAtDepth(a, x);
    assert NodeOk(a, x) && NodeOk(a, a.parent[x]);
  }

  /** In the walk a parent comes before its child. */
  lemma {:induction false} ParentBefore(a: Arena, root: nat, k: nat)
    requires Forest(a) && root in a.kids && 0 < k < |Pre(a, root)|
    ensures var x := Pre(a, root)[k];
      x in a.kids && x != root && a.parent[x] != x && a.parent[x] in Pre(a, root)[..k]
  {
    hide Pre, PreList, Below, After, Rest;
    var pre := Pre(a, root);
    PreOnce(a, root);
    PreIs(a, root);
    assert pre[0] == root && pre[k] != pre[0];
    WalkAt(a, root, k);
    var x := pre[k];
    ParentHas(a, x);
    LaterAtDepth(a, x);
    PreIsSubtree(a, root, a.parent[x]);
    var j :| 0 <= j < |pre| && pre[j] == a.parent[x];
    ChildAfterParent(a, root, j, x);
    var m :| 0 <= m < |pre[j + 1..]| && pre[j + 1..][m] == x;
    assert pre[j + 1 + m] == x;
    assert j + 1 + m == k;
    assert pre[..k][j] == a.parent[x];
  }

  /** One step of a walk that has visited `vis` and stands at its last node. */
  lemma {:induction false} WalkNext(a: Arena, root: nat, vis: seq<nat>)
    requires Forest(a) && root in a.kids && vis != [] && vis <= Pre(a, root)
    ensures var p := vis[|vis| - 1];
      && p in a.kids && Under(a, root, p)
      && (After(a, root, p) == [] ==> vis == Pre(a, root))
      && (After(a, root, p) != [] ==>
        var n := After(a, root, p)[0];
        && n in a.kids && n !in vis && a.parent[n] != n && a.parent[n] in vis && a.parent[n] in a.kids
        && Under(a, root, n) && After(a, root, p) == [n] + After(a, root, n)
        && Under(a, a.parent[n], p) && Under(a, root, a.parent[n])
        && vis + [n] <= Pre(a, root) && |vis| < |Pre(a, root)|)
  {
    hide Pre, PreList, Below, After, Rest, Under, NodeOk;
    var pre, k := Pre(a, root), |vis| - 1;
    assert pre[k] == vis[k];
    WalkAt(a, root, k);
    var p := vis[k];
    if After(a, root, p) == [] {
      assert pre == vis + pre[k + 1..];
    } else {
      var n := After(a, root, p)[0];
      assert pre[k + 1..][0] == pre[k + 1];
      AfterHead(a, root, p);
      NextParentAbove(a, root, p);
      PreOnce(a, root);
      ParentBefore(a, root, k + 1);
      assert pre[..k + 1] == vis;
      assert forall i :: 0 <= i < |vis| ==> vis[i] == pre[i];
    }
  }

  // ---- the children of a node, picked out of the walk ----

  /** The nodes of `s` whose parent is `m`. */
  ghost function ChildrenIn(a: Arena, s: seq<nat>, m: nat): seq<nat>
    requires forall x :: x in s ==> x in a.parent
  {
    if s == [] then []
    else ChildrenIn(a, s[..|s| - 1], m) + if a.parent[s[|s| - 1]] == m then [s[|s| - 1]] else []
  }

  lemma {:induction false} ChildrenConcat(a: Arena, s: seq<nat>, t: seq<nat>, m: nat)
    requires forall x :: x in s || x in t ==> x in a.parent
    ensures forall x :: x in s + t ==> x in a.parent
    ensures ChildrenIn(a, s + t, m) == ChildrenIn(a, s, m) + ChildrenIn(a, t, m)
    decreases |t|
  {
    if t == [] {
      assert s + t == s;
    } else {
      var u := t[..|t| - 1];
      assert (s + t)[..|s + t| - 1] == s + u;
      ChildrenConcat(a, s, u, m);
      assert ChildrenIn(a, s + t, m) == ChildrenIn(a, s + u, m) + if a.parent[t[|t| - 1]] == m then [t[|t| - 1]]
        else [];
    }
  }

  lemma {:induction false} PreKnown(a: Arena, p: nat)
    requires Forest(a) && p in a.kids
    ensures forall x :: x in Pre(a, p) ==> x in a.parent
  {
    forall x | x in Pre(a, p) ensures x in a.parent { PreUnder(a, p, x); }
  }

  /** The descendants of `p` with parent `m` are the children of `m`, in order, for every node `m`
      of the subtree of `p`, and none for any other. */
  lemma {:induction false} PickChildren(a: Arena, p: nat, m: nat)
    requires Forest(a) && p in a.kids && m in a.kids
    ensures forall x :: x in Below(a, p) ==> x in a.parent
    ensures ChildrenIn(a, Below(a, p), m) == if m in Pre(a, p) then a.kids[m] else []
    decreases a.height + 1 - a.depth[p], 0
  {
    hide PreList, ChildrenIn;
    PreKnown(a, p);
    assert NodeOk(a, p);
    PickFrom(a, p, 0, m);
    assert a.kids[p][0..] == a.kids[p];
  }

  /** The same for the subtrees of the children of `p` from the `i`-th on. */
  lemma {:induction false} PickFrom(a: Arena, p: nat, i: nat, m: nat)
    requires Forest(a) && p in a.kids && m in a.kids && i <= |a.kids[p]|
    ensures var l := a.kids[p][i..]; var d := a.depth[p] + 1;
      && AtDepth(a, l, d) && (forall x :: x in PreList(a, l, d) ==> x in a.parent)
      && ChildrenIn(a, PreList(a, l, d), m) == if m == p then l else if m in PreList(a, l, d) then a.kids[m] else []
    decreases a.height - a.depth[p], 1 + |a.kids[p]| - i
  {
    hide PreList, Pre, ChildrenIn, Below;
    assert NodeOk(a, p);
    var k := a.kids[p];
    assert forall x :: x in k[i..] ==> x in k;
    if i == |k| {
      PickNone(a, a.depth[p] + 1, m);
      assert k[i..] == [];
    } else {
      ChildFacts(a, p, i);
      assert NodeOk(a, k[i]);
      PickFrom(a, p, i + 1, m);
      PickChildren(a, k[i], m);
      PickCons(a, p, i, m);
    }
  }

  lemma {:induction false} PickNone(a: Arena, d: nat, m: nat)
    requires Forest(a) && d <= a.height + 1
    ensures AtDepth(a, [], d) && PreList(a, [], d) == [] && ChildrenIn(a, [], m) == []
  {}

  lemma {:induction false} PickCons(a: Arena, p: nat, i: nat, m: nat)
    requires Forest(a) && p in a.kids && m in a.kids && i < |a.kids[p]| && a.kids[p][i] in a.kids
    requires AtDepth(a, a.kids[p][i + 1..], a.depth[p] + 1) && AtDepth(a, a.kids[p][i..], a.depth[p] + 1)
    requires var c := a.kids[p][i]; var t := PreList(a, a.kids[p][i + 1..], a.depth[p] + 1);
      && (forall x :: x in Below(a, c) || x in t ==> x in a.parent)
      && ChildrenIn(a, Below(a, c), m) == (if m in Pre(a, c) then a.kids[m] else [])
      && ChildrenIn(a, t, m) == (if m == p then a.kids[p][i + 1..] else if m in t then a.kids[m] else [])
    ensures var l := a.kids[p][i..]; var s := PreList(a, l, a.depth[p] + 1);
      && (forall x :: x in s ==> x in a.parent)
      && ChildrenIn(a, s, m) == if m == p then l else if m in s then a.kids[m] else []
  {
    hide PreList, Under, ChildrenIn, Below, NodeOk, Pre;
    var c := a.kids[p][i];
    var t := PreList(a, a.kids[p][i + 1..], a.depth[p] + 1);
    ChildFacts(a, p, i);
    PreListFrom(a, p, i);
    PickDisjoint(a, p, i, m);
    PreIs(a, c);
    PickCases(a, p, c, Below(a, c), t, a.kids[p][i + 1..], m);
    assert a.kids[p][i..] == [c] + a.kids[p][i + 1..];
  }

  lemma {:induction false} PickCases(a: Arena, p: nat, c: nat, b: seq<nat>, t: seq<nat>, later: seq<nat>, m: nat)
    requires m in a.kids && c in a.parent && a.parent[c] == p
    requires forall x :: x in b || x in t ==> x in a.parent
    requires m in [c] + b ==> m != p && m !in t
    requires m in t ==> m != p
    requires ChildrenIn(a, b, m) == if m in [c] + b then a.kids[m] else []
    requires ChildrenIn(a, t, m) == if m == p then later else if m in t then a.kids[m] else []
    ensures forall x :: x in [c] + (b + t) ==> x in a.parent
    ensures ChildrenIn(a, [c] + (b + t), m) == if m == p then [c] + later else if m in [c] + (b + t) then a.kids[m]
      else []
  {
    hide ChildrenIn;
    JoinChildren(a, c, b, t, m);
    NothingAdded([c], later);
    NothingAdded([], a.kids[m]);
    assert m in [c] + (b + t) <==> m in [c] + b || m in t;
  }

  lemma {:induction false} NothingAdded(s: seq<nat>, t: seq<nat>)
    ensures s + [] + t == s + t && [] + t == t && t + [] == t
  {
  }

  lemma {:induction false} PreIs(a: Arena, c: nat)
    requires Forest(a) && c in a.kids
    ensures Pre(a, c) == [c] + Below(a, c)
  {}

  lemma {:induction false} JoinChildren(a: Arena, c: nat, b: seq<nat>, t: seq<nat>, m: nat)
    requires c in a.parent && forall x :: x in b || x in t ==> x in a.parent
    ensures forall x :: x in [c] + (b + t) ==> x in a.parent
    ensures ChildrenIn(a, [c] + (b + t), m) ==
      (if a.parent[c] == m then [c] else []) + ChildrenIn(a, b, m) + ChildrenIn(a, t, m)
  {
    hide ChildrenIn;
    ChildrenConcat(a, b, t, m);
    ChildrenConcat(a, [c], b + t, m);
    SingleChild(a, c, m);
  }

  lemma {:induction false} SingleChild(a: Arena, c: nat, m: nat)
    requires c in a.parent
    ensures ChildrenIn(a, [c], m) == if a.parent[c] == m then [c] else []
  {
    assert [c][..0] == [];
  }

  /** `m` lies in at most one of the subtrees, and not in any if it is `p`. */
  lemma {:induction false} PickDisjoint(a: Arena, p: nat, i: nat, m: nat)
    requires Forest(a) && p in a.kids && m in a.kids && i < |a.kids[p]| && a.kids[p][i] in a.kids
    requires AtDepth(a, a.kids[p][i + 1..], a.depth[p] + 1)
    ensures m in Pre(a, a.kids[p][i]) ==> m != p && m !in PreList(a, a.kids[p][i + 1..], a.depth[p] + 1)
    ensures m in PreList(a, a.kids[p][i + 1..], a.depth[p] + 1) ==> m != p
  {
    assert NodeOk(a, p);
    var k, d := a.kids[p], a.depth[p] + 1;
    assert forall x :: x in k[i..] ==> x in k;
    PreListOnce(a, k[i..], d);
    PreListFrom(a, p, i);
    var s, t := Pre(a, k[i]), PreList(a, k[i + 1..], d);
    assert PreList(a, k[i..], d) == s + t;
    if m in s + t { ListDeep(a, k[i..], d, m); }
    if m in s { OnceSplit(s, t, m); }
  }

  lemma {:induction false} OnceSplit(s: seq<nat>, t: seq<nat>, x: nat)
    requires NoDuplicates(s + t) && x in s
    ensures x !in t
  {
    var i :| 0 <= i < |s| && s[i] == x;
    forall j | 0 <= j < |t| ensures t[j] != x { assert (s + t)[i] != (s + t)[|s| + j]; }
  }

  // ---- changing a forest ----

  /** A new node on its own. */
  ghost function WithRoot(a: Arena, q: nat): Arena {
    Arena(a.kids[q := []], a.parent[q := q], a.depth[q := 0], a.height)
  }

  /** The lone node `q` becomes the first child of `p`. */
  ghost function WithChild(a: Arena, q: nat, p: nat): Arena
    requires p in a.kids && p in a.depth
  {
    var d := a.depth[p] + 1;
    Arena(a.kids[p := [q] + a.kids[p]], a.parent[q := p], a.depth[q := d], if d > a.height then d else a.height)
  }

  /** `x` leaves the child list of its parent and becomes a root. */
  ghost function Detached(a: Arena, x: nat): Arena
    requires x in a.parent && a.parent[x] in a.kids && x in a.kids[a.parent[x]]
  {
    a.(kids := a.kids[a.parent[x] := Without(a.kids[a.parent[x]], x)], parent := a.parent[x := x])
  }

  lemma {:induction false} WithRootForest(a: Arena, q: nat)
    requires Forest(a) && q !in a.kids
    ensures Forest(WithRoot(a, q))
  {
    hide NodeOk;
    var b := WithRoot(a, q);
    forall p | p in b.kids ensures NodeOk(b, p) { WithRootNode(a, q, p); }
  }

  lemma {:induction false} WithRootNode(a: Arena, q: nat, p: nat)
    requires a.parent.Keys == a.kids.Keys && a.depth.Keys == a.kids.Keys && q !in a.kids && p in WithRoot(a, q).kids
    requires p != q ==> NodeOk(a, p)
    ensures NodeOk(WithRoot(a, q), p)
  {}

  lemma {:induction false} LoneNode(a: Arena, q: nat)
    requires Forest(a) && q in a.kids && a.parent[q] == q
    ensures forall p :: p in a.kids ==> q !in a.kids[p]
  {
    forall p | p in a.kids ensures q !in a.kids[p] { assert NodeOk(a, p); }
  }

  lemma {:induction false} WithChildForest(a: Arena, q: nat, p: nat)
    requires Forest(a) && q in a.kids && p in a.kids && q != p && a.parent[q] == q && a.kids[q] == []
    ensures Forest(WithChild(a, q, p))
  {
    hide NodeOk;
    var b := WithChild(a, q, p);
    LoneNode(a, q);
    forall x | x in b.kids ensures NodeOk(b, x) { WithChildNode(a, q, p, x); }
  }

  lemma {:induction false} WithChildNode(a: Arena, q: nat, p: nat, x: nat)
    requires a.parent.Keys == a.kids.Keys && a.depth.Keys == a.kids.Keys && x in a.kids && NodeOk(a, x)
    requires q in a.kids && p in a.kids && q != p && a.parent[q] == q && a.kids[q] == []
    requires forall y :: y in a.kids ==> q !in a.kids[y]
    ensures NodeOk(WithChild(a, q, p), x)
  {
    if x != q && a.parent[x] == p { assert a.parent[x] != x ==> x in a.kids[p]; }
  }

  lemma {:induction false} UnderDef(a: Arena, x: nat, y: nat)
    requires Forest(a) && y in a.kids
    ensures a.parent[y] in a.kids && (a.parent[y] != y ==> DepthOf(a, a.parent[y]) < DepthOf(a, y))
    ensures Under(a, x, y) <==> x == y || (a.parent[y] != y && Under(a, x, a.parent[y]))
  {
    assert NodeOk(a, y);
    assert NodeOk(a, a.parent[y]);
  }

  /** An ancestor is not deeper, and only the node itself is as deep. */
  lemma {:induction false} UnderDepth(a: Arena, x: nat, y: nat)
    requires Forest(a) && y in a.kids && Under(a, x, y)
    ensures x in a.kids && DepthOf(a, x) <= DepthOf(a, y) && (DepthOf(a, x) == DepthOf(a, y) ==> x == y)
    decreases DepthOf(a, y)
  {
    hide NodeOk, Under;
    UnderDef(a, x, y);
    if x != y { UnderDepth(a, x, a.parent[y]); }
  }

  /** Two nodes above each other are one. */
  lemma {:induction false} UnderBoth(a: Arena, x: nat, y: nat)
    requires Forest(a) && x in a.kids && y in a.kids && Under(a, x, y) && Under(a, y, x)
    ensures x == y
  {
    hide Forest, NodeOk, Under;
    UnderDepth(a, x, y);
    UnderDepth(a, y, x);
  }

  /** The tree of the root `q` goes under `p`, which is not in it: all of it moves down. */
  ghost function Grafted(a: Arena, q: nat, p: nat): Arena
    requires Forest(a) && q in a.kids && p in a.kids
  {
    Arena(a.kids[p := [q] + a.kids[p]], a.parent[q := p],
          map x | x in a.kids :: GraftDepth(a, q, p, x), a.height + a.depth[p] + 1)
  }

  ghost function GraftDepth(a: Arena, q: nat, p: nat, x: nat): nat
    requires Forest(a) && q in a.kids && p in a.kids && x in a.kids
  {
    if Under(a, q, x) then (RootIsTop(a, q, x); a.depth[x] - a.depth[q] + a.depth[p] + 1) else a.depth[x]
  }

  lemma {:induction false} GraftedForest(a: Arena, q: nat, p: nat)
    requires Forest(a) && q in a.kids && p in a.kids && a.parent[q] == q && !Under(a, q, p)
    ensures Forest(Grafted(a, q, p))
  {
    hide NodeOk, GraftDepth, Under;
    var b := Grafted(a, q, p);
    forall x | x in b.kids ensures NodeOk(b, x) { GraftedNode(a, q, p, x); }
  }

  lemma {:induction false} GraftedNode(a: Arena, q: nat, p: nat, x: nat)
    requires Forest(a) && q in a.kids && p in a.kids && a.parent[q] == q && !Under(a, q, p) && x in a.kids
    ensures x in Grafted(a, q, p).kids && NodeOk(Grafted(a, q, p), x)
  {
    hide GraftDepth, Under;
    var b := Grafted(a, q, p);
    LoneNode(a, q);
    assert NodeOk(a, x);
    UnderDef(a, q, q);
    GraftStep(a, q, p, x);
    forall c | c in b.kids[x] ensures c in b.kids && c != x && b.parent[c] == x && b.depth[c] == b.depth[x] + 1 {
      if c in a.kids[x] {
        assert c != q;
        GraftSame(a, q, p, x, c);
      } else {
        GraftTop(a, q, p);
      }
    }
    assert NoDuplicates(b.kids[x]);
  }

  lemma {:induction false} GraftTop(a: Arena, q: nat, p: nat)
    requires Forest(a) && q in a.kids && p in a.kids && !Under(a, q, p)
    ensures q != p && GraftDepth(a, q, p, q) == a.depth[p] + 1 && GraftDepth(a, q, p, p) == a.depth[p]
  {
    UnderDef(a, q, q);
    UnderDef(a, q, p);
  }

  /** Parent and child move together. */
  lemma {:induction false} GraftSame(a: Arena, q: nat, p: nat, x: nat, c: nat)
    requires Forest(a) && q in a.kids && p in a.kids && x in a.kids && c in a.kids[x] && c != q
    ensures c in a.kids && GraftDepth(a, q, p, c) == GraftDepth(a, q, p, x) + 1
  {
    hide Under;
    assert NodeOk(a, x);
    UnderDef(a, q, c);
    if Under(a, q, x) { RootIsTop(a, q, x); RootIsTop(a, q, c); }
  }

  lemma {:induction false} GraftStep(a: Arena, q: nat, p: nat, x: nat)
    requires Forest(a) && q in a.kids && p in a.kids && x in a.kids
    ensures GraftDepth(a, q, p, x) <= a.height + a.depth[p] + 1
  {
    hide Under;
    assert NodeOk(a, x);
    if Under(a, q, x) { RootIsTop(a, q, x); }
  }

  /** Nothing else lies in the tree of a node without children. */
  lemma {:induction false} LeafAlone(a: Arena, q: nat, x: nat)
    requires Forest(a) && q in a.kids && a.kids[q] == [] && x in a.kids && x != q
    ensures !Under(a, q, x)
    decreases a.depth[x]
  {
    hide Under;
    UnderDef(a, q, x);
    if a.parent[x] != x {
      ParentHas(a, x);
      LaterAtDepth(a, x);
      LeafAlone(a, q, a.parent[x]);
    }
  }

  lemma {:induction false} DetachedForest(a: Arena, x: nat)
    requires Forest(a) && x in a.kids && a.parent[x] != x
    ensures a.parent[x] in a.kids && x in a.kids[a.parent[x]] && Forest(Detached(a, x))
  {
    hide NodeOk, Without, NoDuplicates;
    ParentHas(a, x);
    forall y | y in a.kids ensures NodeOk(Detached(a, x), y) { DetachedNode(a, x, y); }
  }

  lemma {:induction false} DetachedNode(a: Arena, x: nat, y: nat)
    requires Forest(a) && x in a.kids && a.parent[x] != x && a.parent[x] in a.kids && x in a.kids[a.parent[x]]
    requires y in a.kids
    ensures NodeOk(Detached(a, x), y)
  {
    hide Without;
    var p, b := a.parent[x], Detached(a, x);
    assert NodeOk(a, p) && NodeOk(a, y);
    WithoutFacts(a.kids[p], x);
    assert forall c :: c in b.kids[y] ==> c in a.kids[y] && c != x;
  }

  // ---- the walk with a place in a child list instead of a current node ----

  ghost predicate Place(a: Arena, root: nat, p: nat, i: nat)
    requires Forest(a)
  {
    p in a.kids && Under(a, root, p) && i <= |a.kids[p]|
  }

  lemma {:induction false} TailAtDepth(a: Arena, p: nat, i: nat)
    requires Forest(a) && p in a.kids && i <= |a.kids[p]|
    ensures AtDepth(a, a.kids[p][i..], a.depth[p] + 1)
  {
    assert NodeOk(a, p);
    assert forall x :: x in a.kids[p][i..] ==> x in a.kids[p];
  }

  /** What is still to visit when the walk is about to look at child `i` of `p`. */
  ghost function ToVisit(a: Arena, root: nat, p: nat, i: nat): seq<nat>
    requires Forest(a) && Place(a, root, p, i)
  {
    TailAtDepth(a, p, i);
    PreList(a, a.kids[p][i..], a.depth[p] + 1) + Rest(a, root, p)
  }

  lemma {:induction false} PlaceStart(a: Arena, root: nat)
    requires Forest(a) && root in a.kids
    ensures Place(a, root, root, 0) && ToVisit(a, root, root, 0) == Below(a, root)
  {
    assert a.kids[root][0..] == a.kids[root];
  }

  /** The child is visited next, then what is below it. */
  lemma {:induction false} PlaceVisit(a: Arena, root: nat, p: nat, i: nat)
    requires Forest(a) && Place(a, root, p, i) && i < |a.kids[p]|
    ensures var c := a.kids[p][i];
      && Place(a, root, c, 0) && Place(a, root, p, i + 1)
      && ToVisit(a, root, p, i) == [c] + ToVisit(a, root, c, 0)
      && (a.kids[c] == [] ==> ToVisit(a, root, c, 0) == ToVisit(a, root, p, i + 1))
  {
    hide PreList, Rest, Under;
    var c := a.kids[p][i];
    PreListFrom(a, p, i);
    RestOfChild(a, root, p, i);
    var b, t, r := Below(a, c), PreList(a, a.kids[p][i + 1..], a.depth[p] + 1), Rest(a, root, p);
    assert ToVisit(a, root, c, 0) == b + (t + r) by { assert a.kids[c][0..] == a.kids[c]; }
    assert ([c] + (b + t)) + r == [c] + (b + (t + r));
    if a.kids[c] == [] {
      NothingBelow(a, c);
      assert b + (t + r) == t + r;
    }
  }

  lemma {:induction false} NothingBelow(a: Arena, c: nat)
    requires Forest(a) && c in a.kids && a.kids[c] == []
    ensures Below(a, c) == []
  {}

  /** At the end of a child list the walk goes on after the parent. */
  lemma {:induction false} PlaceUp(a: Arena, root: nat, p: nat)
    requires Forest(a) && p in a.kids && Under(a, root, p) && p != root
    ensures a.parent[p] in a.kids && p in a.kids[a.parent[p]] && a.depth[a.parent[p]] < a.depth[p]
    ensures Place(a, root, p, |a.kids[p]|) && Place(a, root, a.parent[p], IndexOf(a.kids[a.parent[p]], p) + 1)
    ensures ToVisit(a, root, p, |a.kids[p]|) == ToVisit(a, root, a.parent[p], IndexOf(a.kids[a.parent[p]], p) + 1)
  {
    ParentHas(a, p);
    LaterAtDepth(a, p);
    assert a.kids[p][|a.kids[p]|..] == [];
    assert ToVisit(a, root, p, |a.kids[p]|) == Rest(a, root, p);
  }

  lemma {:induction false} PlaceEnd(a: Arena, root: nat)
    requires Forest(a) && root in a.kids
    ensures Place(a, root, root, |a.kids[root]|) && ToVisit(a, root, root, |a.kids[root]|) == []
  {
    assert a.kids[root][|a.kids[root]|..] == [];
  }

  /** The walk over what is below `root` has visited `vis` and is about to look at child `i` of `p`. */
  ghost predicate Walking(a: Arena, root: nat, p: nat, i: nat, vis: seq<nat>)
    requires Forest(a) && root in a.kids
  {
    Place(a, root, p, i) && vis + ToVisit(a, root, p, i) == Below(a, root)
  }

  ghost function Left(a: Arena, root: nat, p: nat, i: nat): nat {
    if Forest(a) && Place(a, root, p, i) then |ToVisit(a, root, p, i)| else 0
  }

  ghost function DepthOf(a: Arena, p: nat): nat { if p in a.depth then a.depth[p] else 0 }

  lemma {:induction false} BelowOnce(a: Arena, root: nat)
    requires Forest(a) && root in a.kids
    ensures NoDuplicates(Below(a, root)) && Pre(a, root) == [root] + Below(a, root)
  {
    hide PreList;
    PreOnce(a, root);
    assert Below(a, root) == Pre(a, root)[1..];
  }

  lemma {:induction false} WalkingStart(a: Arena, root: nat)
    requires Forest(a) && root in a.kids
    ensures Walking(a, root, root, 0, [])
  {
    PlaceStart(a, root);
  }

  lemma {:induction false} WalkingVisit(a: Arena, root: nat, p: nat, i: nat, vis: seq<nat>)
    requires Forest(a) && root in a.kids && Walking(a, root, p, i, vis) && i < |a.kids[p]|
    ensures var c := a.kids[p][i];
      && c in a.kids && c !in vis
      && Walking(a, root, c, 0, vis + [c]) && Left(a, root, c, 0) < Left(a, root, p, i)
      && (a.kids[c] == [] ==> Walking(a, root, p, i + 1, vis + [c]) && Left(a, root, p, i + 1) < Left(a, root, p, i))
  {
    hide ToVisit, Below, Under, Forest;
    var c := a.kids[p][i];
    PlaceVisit(a, root, p, i);
    var t := ToVisit(a, root, c, 0);
    assert vis + ([c] + t) == (vis + [c]) + t;
    BelowOnce(a, root);
    NotBefore(vis, c, t);
  }

  lemma {:induction false} NotBefore(s: seq<nat>, c: nat, t: seq<nat>)
    requires NoDuplicates(s + ([c] + t))
    ensures c !in s
  {
    var w := s + ([c] + t);
    assert w[|s|] == c && forall j :: 0 <= j < |s| ==> w[j] == s[j];
  }

  lemma {:induction false} WalkingUp(a: Arena, root: nat, p: nat, i: nat, vis: seq<nat>)
    requires Forest(a) && root in a.kids && Walking(a, root, p, i, vis) && i == |a.kids[p]| && p != root
    ensures a.parent[p] in a.kids && p in a.kids[a.parent[p]] && DepthOf(a, a.parent[p]) < DepthOf(a, p)
    ensures var j := IndexOf(a.kids[a.parent[p]], p) + 1;
      Walking(a, root, a.parent[p], j, vis) && Left(a, root, a.parent[p], j) == Left(a, root, p, i)
  {
    hide ToVisit, Below, Under;
    PlaceUp(a, root, p);
  }

  lemma {:induction false} WalkingSeen(a: Arena, root: nat, p: nat, i: nat, vis: seq<nat>)
    requires Forest(a) && root in a.kids && Walking(a, root, p, i, vis)
    ensures forall x :: x in vis ==> x in Below(a, root)
  {
    hide ToVisit, Below, Under, Forest;
  }

  lemma {:induction false} WalkingEnd(a: Arena, root: nat, i: nat, vis: seq<nat>)
    requires Forest(a) && root in a.kids && Walking(a, root, root, i, vis) && i == |a.kids[root]|
    ensures vis == Below(a, root)
  {
    hide ToVisit, Below, Under, Forest;
    PlaceEnd(a, root);
    assert vis + [] == vis;
  }

  /** A lone node without children disappears. */
  ghost function Dropped(a: Arena, x: nat): Arena {
    Arena(a.kids - {x}, a.parent - {x}, a.depth - {x}, a.height)
  }

  lemma {:induction false} DroppedForest(a: Arena, x: nat)
    requires Forest(a) && x in a.kids && a.parent[x] == x && a.kids[x] == []
    ensures Forest(Dropped(a, x))
  {
    var b := Dropped(a, x);
    LoneNode(a, x);
    forall y | y in b.kids ensures NodeOk(b, y) {
      assert NodeOk(a, y);
      assert a.parent[y] != y ==> y in a.kids[a.parent[y]];
    }
  }

  /** The nodes of `a` look the same in `b`. */
  ghost predicate Embedded(a: Arena, b: Arena) {
    && Forest(a) && Forest(b)
    && forall x :: x in a.kids ==>
        x in b.kids && b.kids[x] == a.kids[x] && b.parent[x] == a.parent[x] && b.depth[x] == a.depth[x]
  }

  lemma {:induction false} SameUnder(a: Arena, b: Arena, root: nat, x: nat)
    requires Embedded(a, b) && x in a.kids
    ensures Under(b, root, x) <==> Under(a, root, x)
    decreases a.depth[x]
  {
    assert NodeOk(a, x) && NodeOk(b, x);
    if a.parent[x] != x {
      LaterAtDepth(a, x);
      SameUnder(a, b, root, a.parent[x]);
    }
  }

  lemma {:induction false} SamePre(a: Arena, b: Arena, p: nat)
    requires Embedded(a, b) && p in a.kids
    ensures Pre(b, p) == Pre(a, p) && Below(b, p) == Below(a, p)
    decreases a.height + 1 - a.depth[p], 0
  {
    assert NodeOk(a, p) && NodeOk(b, p);
    SamePreList(a, b, a.kids[p], a.depth[p] + 1);
  }

  lemma {:induction false} SamePreList(a: Arena, b: Arena, l: seq<nat>, d: nat)
    requires Embedded(a, b) && AtDepth(a, l, d) && d <= b.height + 1
    ensures AtDepth(b, l, d) && PreList(b, l, d) == PreList(a, l, d)
    decreases a.height + 1 - d, 1 + |l|
  {
    if l != [] {
      assert NodeOk(a, l[0]);
      SamePre(a, b, l[0]);
      SamePreList(a, b, l[1..], d);
    }
  }

  lemma {:induction false} SameRest(a: Arena, b: Arena, root: nat, x: nat)
    requires Embedded(a, b) && x in a.kids && Under(a, root, x)
    ensures Under(b, root, x) && Rest(b, root, x) == Rest(a, root, x)
    decreases a.depth[x]
  {
    SameUnder(a, b, root, x);
    if x != root {
      LaterAtDepth(a, x);
      LaterAtDepth(b, x);
      SamePreList(a, b, Later(a, x), a.depth[x]);
      SameRest(a, b, root, a.parent[x]);
    }
  }

  /** A walk over the nodes of `a` is the same walk in `b`. */
  lemma {:induction false} SameAfter(a: Arena, b: Arena, root: nat, x: nat)
    requires Embedded(a, b) && x in a.kids && Under(a, root, x)
    ensures Under(b, root, x) && After(b, root, x) == After(a, root, x)
  {
    SameRest(a, b, root, x);
    SamePre(a, b, x);
  }
}
