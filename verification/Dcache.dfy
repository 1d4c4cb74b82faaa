/** The dentry cache (fs/dcache.c): reference counts, the list of unused dentries, the upward
    release cascade of `dput`, pruning, and the walk over a subtree. Dentries are numbers. */
module Dcache {
  import opened Lists
  import opened Preorder

  /** `subdirs` runs from the most recently created child on; a root is its own parent. */
  datatype Dentry = Dentry(count: int, hashed: bool, parent: nat, subdirs: seq<nat>, referenced: bool)

  function Kids(n: Dentry): seq<nat> { n.subdirs }

  function Parent(n: Dentry): nat { n.parent }

  /** Changing anything but the links. */
  lemma {:induction false} LinksKept(dent: map<nat, Dentry>, depth: map<nat, nat>, height: nat, x: nat, n: Dentry)
    requires x in dent && n.subdirs == dent[x].subdirs && n.parent == dent[x].parent
    ensures Links(Kids, Parent, dent[x := n], depth, height) == Links(Kids, Parent, dent, depth, height)
  {
    hide Field;
    LinksUpdate(Kids, Parent, dent, x, n);
    assert Field(Kids, dent)[x := dent[x].subdirs] == Field(Kids, dent) &&
      Field(Parent, dent)[x := dent[x].parent] == Field(Parent, dent);
  }

  // ---- the books ----

  /** The cache, with what is not stored in it: the references held by its users, and the depths
      that witness that its links form trees. `unused` runs from the head of the list to its tail. */
  datatype View = View(dent: map<nat, Dentry>, unused: seq<nat>, nrUnused: int,
                       handles: map<nat, nat>, depth: map<nat, nat>, height: nat)

  ghost function Tree(v: View): Arena { Links(Kids, Parent, v.dent, v.depth, v.height) }

  /** A reference is held by every child and by `handles` users outside the cache; `owing` has one
      more counted than that, while it is being given up. */
  ghost predicate CountsOk(dent: map<nat, Dentry>, handles: map<nat, nat>, owing: Option<nat>) {
    && handles.Keys == dent.Keys
    && forall x :: x in dent ==> dent[x].count == handles[x] + |dent[x].subdirs| + if owing == Some(x) then 1 else 0
  }

  /** The unused list holds exactly the dentries with count 0, except one that is on its way out,
      and they can all be found again by name. */
  ghost predicate UnusedOk(dent: map<nat, Dentry>, unused: seq<nat>, off: Option<nat>) {
    && NoDuplicates(unused)
    && (forall x :: x in unused <==> x in dent && dent[x].count == 0 && off != Some(x))
    && (forall x :: x in unused ==> dent[x].hashed)
  }

  ghost predicate Books(v: View, owing: Option<nat>, off: Option<nat>) {
    Forest(Tree(v)) && CountsOk(v.dent, v.handles, owing) && UnusedOk(v.dent, v.unused, off) && v.nrUnused == |v.unused|
  }

  /** The cache with dentry `x` changed in anything but its links, and `h` handles on it. */
  function Changed(v: View, x: nat, n: Dentry, h: nat): View {
    v.(dent := v.dent[x := n], handles := v.handles[x := h])
  }

  lemma {:induction false} ChangedBooks(v: View, owing: Option<nat>, off: Option<nat>, x: nat, n: Dentry, h: nat,
          owing': Option<nat>, off': Option<nat>)
    requires Books(v, owing, off) && x in v.dent && n.subdirs == v.dent[x].subdirs && n.parent == v.dent[x].parent
    requires n.count == h + |n.subdirs| + if owing' == Some(x) then 1 else 0
    requires owing.None? || owing == Some(x)
    requires owing'.None? || owing' == Some(x)
    requires (off.None? || off == Some(x)) && (off'.None? || off' == Some(x))
    requires x in v.unused <==> n.count == 0 && off' != Some(x)
    requires x in v.unused ==> n.hashed
    ensures Books(Changed(v, x, n, h), owing', off')
  {
    hide Links, Field, Forest;
    LinksKept(v.dent, v.depth, v.height, x, n);
  }

  /** The cache without a childless dentry, which leaves its parent's list too. */
  function KilledDent(dent: map<nat, Dentry>, x: nat): map<nat, Dentry>
    requires x in dent && dent[x].parent in dent && (dent[x].parent != x ==> x in dent[dent[x].parent].subdirs)
  {
    var p := dent[x].parent;
    (if p == x then dent else dent[p := dent[p].(subdirs := Without(dent[p].subdirs, x))]) - {x}
  }

  ghost predicate Linked(dent: map<nat, Dentry>, x: nat) {
    x in dent && dent[x].parent in dent && (dent[x].parent != x ==> x in dent[dent[x].parent].subdirs)
  }

  ghost function Killed(v: View, x: nat): View
    requires Linked(v.dent, x)
  {
    v.(dent := KilledDent(v.dent, x), handles := v.handles - {x}, depth := v.depth - {x})
  }

  lemma {:induction false} TreeLinked(v: View, x: nat)
    requires Forest(Tree(v)) && x in v.dent
    ensures Linked(v.dent, x)
  {
    assert NodeOk(Tree(v), x);
  }

  lemma {:induction false} DropLinks(dent: map<nat, Dentry>, depth: map<nat, nat>, height: nat, x: nat)
    ensures Links(Kids, Parent, dent - {x}, depth - {x}, height) == Dropped(Links(Kids, Parent, dent, depth, height), x)
  {
    assert Field(Kids, dent - {x}) == Field(Kids, dent) - {x};
    assert Field(Parent, dent - {x}) == Field(Parent, dent) - {x};
  }

  lemma {:induction false} KilledLinks(v: View, x: nat)
    requires Forest(Tree(v)) && x in v.dent && v.dent[x].subdirs == [] && Linked(v.dent, x)
    ensures Forest(Tree(Killed(v, x)))
  {
    hide Field, NodeOk, Without;
    var a := Tree(v);
    var p := v.dent[x].parent;
    if p == x {
      DroppedForest(a, x);
      DropLinks(v.dent, v.depth, v.height, x);
    } else {
      DetachedForest(a, x);
      var b := Detached(a, x);
      DroppedForest(b, x);
      var d := v.dent[p := v.dent[p].(subdirs := Without(v.dent[p].subdirs, x))];
      LinksUpdate(Kids, Parent, v.dent, p, d[p]);
      DropLinks(d, v.depth, v.height, x);
      assert Dropped(b, x).kids == Dropped(Links(Kids, Parent, d, v.depth, v.height), x).kids;
      assert Dropped(b, x).parent == Dropped(Links(Kids, Parent, d, v.depth, v.height), x).parent;
    }
  }

  /** When a dentry with nothing left to it goes, its parent owes the reference it held. */
  lemma {:induction false} KilledCounts(dent: map<nat, Dentry>, handles: map<nat, nat>, x: nat)
    requires CountsOk(dent, handles, None) && x in dent && dent[x].count == 0 && Linked(dent, x)
    ensures dent[x].subdirs == [] && handles[x] == 0
    ensures CountsOk(KilledDent(dent, x), handles - {x}, if dent[x].parent == x then None else Some(dent[x].parent))
  {}

  lemma {:induction false} KilledBooks(v: View, x: nat)
    requires Books(v, None, Some(x)) && x in v.dent && v.dent[x].count == 0
    ensures Linked(v.dent, x) && x in v.handles && v.handles[x] == 0
    ensures Books(Killed(v, x), if v.dent[x].parent == x then None else Some(v.dent[x].parent), None)
  {
    hide Links, Forest, Without;
    TreeLinked(v, x);
    KilledCounts(v.dent, v.handles, x);
    KilledLinks(v, x);
  }

  // ---- what a release may do ----

  /** Dentries go, but none that is held; what stays keeps its place and its handles. */
  ghost predicate Shrunk(v: View, w: View) {
    && w.dent.Keys <= v.dent.Keys && v.handles.Keys == v.dent.Keys && w.handles.Keys == w.dent.Keys
    && (forall x :: x in w.dent ==> w.dent[x].parent == v.dent[x].parent && w.handles[x] == v.handles[x])
    && (forall x :: x in v.dent && v.handles[x] > 0 ==> x in w.dent)
  }

  /** Moreover what stays keeps its mark. */
  ghost predicate Kept(v: View, w: View) {
    Shrunk(v, w) && forall x :: x in w.dent ==> x in v.dent && w.dent[x].referenced == v.dent[x].referenced
  }

  lemma {:induction false} KeptTrans(u: View, v: View, w: View)
    requires Kept(u, v) && Kept(v, w)
    ensures Kept(u, w)
  {}

  lemma {:induction false} KeptSize(v: View, w: View)
    requires Kept(v, w)
    ensures |w.dent| <= |v.dent| && w.dent.Keys <= v.dent.Keys
  {
    ShrunkSize(v, w);
  }

  lemma {:induction false} KilledKeys(v: View, x: nat)
    requires Linked(v.dent, x)
    ensures Killed(v, x).dent.Keys == v.dent.Keys - {x} && |Killed(v, x).dent| < |v.dent|
  {
    hide Without;
    var k := Killed(v, x).dent;
    assert k.Keys == v.dent.Keys - {x};
    assert |k.Keys| == |v.dent.Keys| - 1;
  }

  lemma {:induction false} KilledShrinks(v: View, x: nat)
    requires v.handles.Keys == v.dent.Keys && Linked(v.dent, x) && x in v.handles && v.handles[x] == 0
    ensures Kept(v, Killed(v, x))
  {
    hide KilledDent, Kept;
    KilledKeys(v, x);
    var w := Killed(v, x);
    forall y | y in w.dent ensures SamePlace(w.dent[y], v.dent[y]) {
      KilledAt(v.dent, x, y);
    }
    KeptWithout(v, w, x);
  }

  ghost predicate SamePlace(m: Dentry, n: Dentry) { m.parent == n.parent && m.referenced == n.referenced }

  lemma {:induction false} KeptWithout(v: View, w: View, x: nat)
    requires v.handles.Keys == v.dent.Keys && w.handles == v.handles - {x} && w.dent.Keys == v.dent.Keys - {x}
    requires x in v.handles && v.handles[x] == 0 && forall y :: y in w.dent ==> SamePlace(w.dent[y], v.dent[y])
    ensures Kept(v, w)
  {}

  lemma {:induction false} KilledAt(dent: map<nat, Dentry>, x: nat, y: nat)
    requires Linked(dent, x) && y in KilledDent(dent, x)
    ensures y in dent && KilledDent(dent, x)[y] == dent[y].(subdirs := KilledDent(dent, x)[y].subdirs)
  {
    hide Without;
  }

  lemma {:induction false} UnderUp(a: Arena, x: nat, d: nat)
    requires Forest(a) && d in a.kids && x in a.kids && Under(a, x, d) && a.parent[x] != x
    ensures a.parent[x] in a.kids && Under(a, a.parent[x], d)
    decreases a.depth[d]
  {
    ParentHas(a, x);
    LaterAtDepth(a, x);
    if d != x {
      LaterAtDepth(a, d);
      UnderUp(a, x, a.parent[d]);
    }
  }

  /** A reference to `d` can be given up without losing it. */
  ghost predicate Stays(n: Dentry, d: nat, deletes: set<nat>) { n.count > 1 || (n.hashed && d !in deletes) }

  /** The dentries that go when a reference to `d` is given up: it and its ancestors, as long as
      the reference is the last one and nothing keeps the dentry as an unused one. */
  ghost function GivenUp(v: View, d: nat, deletes: set<nat>): (r: seq<nat>)
    requires Forest(Tree(v)) && d in v.dent
    decreases DepthOf(Tree(v), d)
  {
    UnderDef(Tree(v), d, d);
    if Stays(v.dent[d], d, deletes) then []
    else [d] + if v.dent[d].parent == d then [] else GivenUp(v, v.dent[d].parent, deletes)
  }

  /** The unused list afterwards: the dentry that ended the chain joins its head if the reference
      was its last one. */
  ghost function Joined(v: View, d: nat, deletes: set<nat>): (r: seq<nat>)
    requires Forest(Tree(v)) && d in v.dent
    decreases DepthOf(Tree(v), d)
  {
    UnderDef(Tree(v), d, d);
    if v.dent[d].count > 1 then v.unused
    else if Stays(v.dent[d], d, deletes) then [d] + v.unused
    else if v.dent[d].parent == d then v.unused
    else Joined(v, v.dent[d].parent, deletes)
  }

  /** The dentries of `w` are those of `v`, uncounted and unhashed by no one. */
  ghost predicate SameUse(v: View, w: View) {
    forall x :: x in w.dent ==>
      x in v.dent && w.dent[x].count == v.dent[x].count && w.dent[x].hashed == v.dent[x].hashed
  }

  lemma {:induction false} KilledSameUse(v: View, x: nat)
    requires Linked(v.dent, x)
    ensures SameUse(v, Killed(v, x))
  {}

  /** Only `d` is used differently, and it goes. */
  lemma {:induction false} SameUseWithout(v: View, w: View, z: View, d: nat)
    requires d in v.dent && d in w.dent && w.dent == v.dent[d := w.dent[d]] && SameUse(w, z) && d !in z.dent
    ensures SameUse(v, z)
  {}

  lemma {:induction false} ChainStep(v: View, d: nat, deletes: set<nat>)
    requires Forest(Tree(v)) && d in v.dent
    ensures v.dent[d].parent in v.dent
    ensures Stays(v.dent[d], d, deletes) ==>
      GivenUp(v, d, deletes) == [] && Joined(v, d, deletes) == if v.dent[d].count > 1 then v.unused else [d] + v.unused
    ensures !Stays(v.dent[d], d, deletes) && v.dent[d].parent == d ==>
      GivenUp(v, d, deletes) == [d] && Joined(v, d, deletes) == v.unused
    ensures !Stays(v.dent[d], d, deletes) && v.dent[d].parent != d ==>
      && GivenUp(v, d, deletes) == [d] + GivenUp(v, v.dent[d].parent, deletes)
      && Joined(v, d, deletes) == Joined(v, v.dent[d].parent, deletes)
  {
    hide Forest, Field;
    UnderDef(Tree(v), d, d);
  }

  // ---- the chain, told by the tree alone ----

  /** `y` lies on the way from `d` up to `x`. */
  ghost predicate OnTheWay(v: View, x: nat, y: nat, d: nat)
    requires Forest(Tree(v)) && d in v.dent
  {
    y in v.dent && Under(Tree(v), x, y) && Under(Tree(v), y, d)
  }

  /** Everything from `d` upwards has references. */
  ghost predicate Referenced(v: View, d: nat)
    requires Forest(Tree(v)) && d in v.dent
  {
    forall y :: y in v.dent && Under(Tree(v), y, d) ==> v.dent[y].count > 0
  }

  lemma {:induction false} UpFrom(v: View, d: nat)
    requires Forest(Tree(v)) && d in v.dent
    ensures v.dent[d].parent in v.dent
    ensures v.dent[d].parent != d ==> DepthOf(Tree(v), v.dent[d].parent) < DepthOf(Tree(v), d)
    ensures forall y :: y in v.dent ==>
      (Under(Tree(v), y, d) <==> y == d || (v.dent[d].parent != d && Under(Tree(v), y, v.dent[d].parent)))
    ensures Under(Tree(v), d, d)
  {
    hide Forest, Under, Field;
    UnderDef(Tree(v), d, d);
    forall y | y in v.dent
      ensures Under(Tree(v), y, d) <==> y == d || (v.dent[d].parent != d && Under(Tree(v), y, v.dent[d].parent))
    {
      UnderDef(Tree(v), y, d);
    }
  }

  /** A dentry goes exactly if it is `d` or an ancestor, and everything from `d` up to it has one
      reference and is unhashed or not wanted by its file system. */
  lemma {:induction false} GoesIff(v: View, d: nat, deletes: set<nat>, x: nat)
    requires Forest(Tree(v)) && d in v.dent && x in v.dent && Referenced(v, d)
    ensures x in GivenUp(v, d, deletes) <==>
      Under(Tree(v), x, d) &&
        forall y :: OnTheWay(v, x, y, d) ==> v.dent[y].count == 1 && (!v.dent[y].hashed || y in deletes)
    decreases DepthOf(Tree(v), d)
  {
    hide Forest, Under, Field, GivenUp, Joined;
    ChainStep(v, d, deletes);
    UpFrom(v, d);
    var p := v.dent[d].parent;
    if Stays(v.dent[d], d, deletes) {
      if Under(Tree(v), x, d) { assert OnTheWay(v, x, d, d); }
    } else if x == d {
      forall y | OnTheWay(v, d, y, d) ensures y == d { OneOnTheWay(v, y, d); }
    } else if p != d {
      GoesIff(v, p, deletes, x);
      forall y ensures OnTheWay(v, x, y, d) <==> (y == d && Under(Tree(v), x, d)) || OnTheWay(v, x, y, p) {}
    }
  }

  lemma {:induction false} OneOnTheWay(v: View, y: nat, d: nat)
    requires Forest(Tree(v)) && d in v.dent && OnTheWay(v, d, y, d)
    ensures y == d
  {
    hide Forest, Under;
    UnderBoth(Tree(v), d, y);
  }

  /** The first dentry from `d` upwards that stays, if any, joins the head of the unused list exactly
      if it had one reference; otherwise the list is as it was. */
  lemma {:induction false} JoinsIff(v: View, d: nat, deletes: set<nat>)
    requires Forest(Tree(v)) && d in v.dent && Referenced(v, d)
    ensures (forall y :: y in v.dent && Under(Tree(v), y, d) ==> y in GivenUp(v, d, deletes)) ==>
      Joined(v, d, deletes) == v.unused
    ensures forall x :: FirstLeft(v, d, x, GivenUp(v, d, deletes)) ==>
      Joined(v, d, deletes) == if v.dent[x].count == 1 then [x] + v.unused else v.unused
    decreases DepthOf(Tree(v), d)
  {
    hide Forest, Under, Field, GivenUp, Joined;
    ChainStep(v, d, deletes);
    UpFrom(v, d);
    var p := v.dent[d].parent;
    var gone := GivenUp(v, d, deletes);
    if Stays(v.dent[d], d, deletes) {
      forall x | FirstLeft(v, d, x, gone) ensures x == d { assert OnTheWay(v, x, d, d); }
    } else if p != d {
      JoinsIff(v, p, deletes);
      forall x | FirstLeft(v, d, x, gone) ensures FirstLeft(v, p, x, GivenUp(v, p, deletes)) {
        forall y | OnTheWay(v, x, y, p) && y != x ensures y in GivenUp(v, p, deletes) {
          assert OnTheWay(v, x, y, d);
          NotBelowParent(v, d, y);
        }
      }
      forall y | y in v.dent && Under(Tree(v), y, p) && y in gone ensures y in GivenUp(v, p, deletes) {
        NotBelowParent(v, d, y);
      }
    }
  }

  lemma {:induction false} NotBelowParent(v: View, d: nat, y: nat)
    requires Forest(Tree(v)) && d in v.dent && v.dent[d].parent in v.dent && v.dent[d].parent != d
    requires y in v.dent && Under(Tree(v), y, v.dent[d].parent)
    ensures y != d
  {
    hide Forest, Under, Field;
    UpFrom(v, d);
    UnderDepth(Tree(v), y, v.dent[d].parent);
  }

  /** `x` is the first dentry from `d` upwards that is not among `gone`. */
  ghost predicate FirstLeft(v: View, d: nat, x: nat, gone: seq<nat>)
    requires Forest(Tree(v)) && d in v.dent
  {
    && x in v.dent && Under(Tree(v), x, d) && x !in gone
    && forall y :: OnTheWay(v, x, y, d) && y != x ==> y in gone
  }

  lemma {:induction false} BooksFacts(v: View, owing: Option<nat>, off: Option<nat>)
    requires Books(v, owing, off)
    ensures Forest(Tree(v)) && Shrunk(v, v) && Kept(v, v) && v.handles.Keys == v.dent.Keys
  {
    hide Forest, Links;
  }

  lemma {:induction false} ShrunkTrans(u: View, v: View, w: View)
    requires Shrunk(u, v) && Shrunk(v, w)
    ensures Shrunk(u, w)
  {}

  lemma {:induction false} OwesOne(v: View, d: nat)
    requires Books(v, Some(d), None) && d in v.dent
    ensures v.dent[d].count > 0
  {}

  lemma {:induction false} StaysSame(m: Dentry, n: Dentry, d: nat, deletes: set<nat>)
    requires m.count == n.count && m.hashed == n.hashed
    ensures Stays(m, d, deletes) == Stays(n, d, deletes)
    ensures n.count > 1 ==> Stays(n, d, deletes)
  {}

  lemma {:induction false} KeptParent(v: View, w: View, d: nat)
    requires Kept(v, w) && d in w.dent
    ensures d in v.dent && w.dent[d].parent == v.dent[d].parent
  {}

  /** Which dentries go depends on the cache alone. */
  lemma {:induction false} SameChain(v: View, w: View, d: nat, deletes: set<nat>)
    requires v.dent == w.dent && v.unused == w.unused && v.depth == w.depth && v.height == w.height
    requires Forest(Tree(v)) && d in v.dent
    ensures GivenUp(v, d, deletes) == GivenUp(w, d, deletes) && Joined(v, d, deletes) == Joined(w, d, deletes)
    decreases DepthOf(Tree(v), d)
  {
    hide Forest, Field;
    UnderDef(Tree(v), d, d);
    if v.dent[d].parent != d { SameChain(v, w, v.dent[d].parent, deletes); }
  }

  /** A dentry with children has references. */
  lemma {:induction false} ParentCounts(v: View, owing: Option<nat>, d: nat)
    requires Books(v, owing, None) && d in v.dent && v.dent[d].parent != d
    ensures v.dent[d].parent in v.dent && v.dent[v.dent[d].parent].count > 0
  {
    assert NodeOk(Tree(v), d);
  }

  lemma {:induction false} BooksReferenced(v: View, owing: Option<nat>, d: nat)
    requires Books(v, owing, None) && d in v.dent && v.dent[d].count > 0 && Forest(Tree(v))
    ensures Referenced(v, d)
    decreases DepthOf(Tree(v), d)
  {
    hide Books, Forest, Under, Field;
    UpFrom(v, d);
    if v.dent[d].parent != d {
      ParentCounts(v, owing, d);
      BooksReferenced(v, owing, v.dent[d].parent);
    }
  }

  /** The whole effect of giving up a reference to `d`, told by the tree and the counts before. */
  lemma {:induction false} ReleasedExactly(v: View, owing: Option<nat>, w: View, d: nat, deletes: set<nat>)
    requires Books(v, owing, None) && Forest(Tree(v)) && d in v.dent && v.dent[d].count > 0
    requires forall x :: x in w.dent <==> x in v.dent && x !in GivenUp(v, d, deletes)
    requires w.unused == Joined(v, d, deletes)
    ensures forall x :: x in v.dent ==>
      (x !in w.dent <==>
        && Under(Tree(v), x, d)
        && forall y :: OnTheWay(v, x, y, d) ==> v.dent[y].count == 1 && (!v.dent[y].hashed || y in deletes))
    ensures (forall y :: y in v.dent && Under(Tree(v), y, d) ==> y !in w.dent) ==> w.unused == v.unused
    ensures forall x :: x in w.dent && OnTheWay(v, x, x, d) && FirstIn(v, w, x, d) ==>
      w.unused == if v.dent[x].count == 1 then [x] + v.unused else v.unused
  {
    hide Books, Forest, Under, Field, GivenUp, Joined, Referenced;
    BooksReferenced(v, owing, d);
    forall x | x in v.dent
      ensures x !in w.dent <==>
        && Under(Tree(v), x, d)
        && forall y :: OnTheWay(v, x, y, d) ==> v.dent[y].count == 1 && (!v.dent[y].hashed || y in deletes)
    {
      GoesIff(v, d, deletes, x);
    }
    JoinsIff(v, d, deletes);
    forall x | x in w.dent && OnTheWay(v, x, x, d) && FirstIn(v, w, x, d)
      ensures FirstLeft(v, d, x, GivenUp(v, d, deletes))
    {}
  }

  /** Everything on the way up from `d` to `x` is gone in `w`. */
  ghost predicate FirstIn(v: View, w: View, x: nat, d: nat)
    requires Forest(Tree(v)) && d in v.dent
  {
    forall y :: OnTheWay(v, x, y, d) && y != x ==> y !in w.dent
  }

  /** One reference to `d` was given up: `d` stays, perhaps joining the unused list, or it goes and
      its parent is `next`. */
  ghost predicate GaveUp(v: View, w: View, d: nat, next: Option<nat>, deletes: set<nat>)
    requires d in v.dent
  {
    var n := v.dent[d];
    && Kept(v, w)
    && w.dent.Keys == v.dent.Keys - (if Stays(n, d, deletes) then {} else {d})
    && next == (if Stays(n, d, deletes) || n.parent == d then None else Some(n.parent))
    && w.unused == (if n.count == 1 && Stays(n, d, deletes) then [d] + v.unused else v.unused)
    && (next.Some? ==> SameUse(v, w) && n.parent in w.dent)
  }

  /** While the references of a chain are given up: `gone` went, and `next` is to give up one. */
  ghost predicate Releasing(v: View, w: View, d: nat, next: Option<nat>, gone: seq<nat>, deletes: set<nat>)
    requires Forest(Tree(v)) && d in v.dent
  {
    && Kept(v, w)
    && (forall x :: x in w.dent <==> x in v.dent && x !in gone)
    && (next.None? ==> gone == GivenUp(v, d, deletes) && w.unused == Joined(v, d, deletes))
    && (next.Some? ==>
      && next.value in w.dent && next.value in v.dent && w.unused == v.unused && SameUse(v, w)
      && gone + GivenUp(v, next.value, deletes) == GivenUp(v, d, deletes)
      && Joined(v, next.value, deletes) == Joined(v, d, deletes))
  }

  lemma {:induction false} ReleasingNext(v0: View, v: View, w: View, d0: nat, d: nat, next: Option<nat>,
          gone: seq<nat>, deletes: set<nat>)
    requires Forest(Tree(v0)) && d0 in v0.dent && Releasing(v0, v, d0, Some(d), gone, deletes)
    requires d in v.dent && v.dent[d].count > 0 && GaveUp(v, w, d, next, deletes)
    ensures Releasing(v0, w, d0, next, if Stays(v.dent[d], d, deletes) then gone else gone + [d], deletes)
  {
    hide Forest, Links, GivenUp, Joined, Kept, Stays, SameUse;
    KeptTrans(v0, v, w);
    KeptParent(v0, v, d);
    SameUseAt(v0, v, d);
    StaysSame(v0.dent[d], v.dent[d], d, deletes);
    ChainStep(v0, d, deletes);
    if Stays(v.dent[d], d, deletes) {
      assert gone + [] == gone;
    } else if next.Some? {
      var g := GivenUp(v0, next.value, deletes);
      assert gone + ([d] + g) == (gone + [d]) + g;
      SameUseTrans(v0, v, w);
    }
  }

  lemma {:induction false} SameUseAt(v: View, w: View, d: nat)
    requires SameUse(v, w) && d in w.dent
    ensures d in v.dent && v.dent[d].count == w.dent[d].count && v.dent[d].hashed == w.dent[d].hashed
  {}

  lemma {:induction false} SameUseSelf(v: View)
    ensures SameUse(v, v)
  {}

  lemma {:induction false} SameUseTrans(u: View, v: View, w: View)
    requires SameUse(u, v) && SameUse(v, w)
    ensures SameUse(u, w)
  {}

  lemma {:induction false} ReferenceGivenUp(v: View, d: nat)
    requires Books(v, None, None) && d in v.dent && v.handles[d] > 0
    ensures d in v.handles && Forest(Tree(v)) && Books(v.(handles := v.handles[d := v.handles[d] - 1]), Some(d), None)
  {
    hide Forest, Links;
    ChangedBooks(v, None, None, d, v.dent[d], v.handles[d] - 1, Some(d), None);
    assert v.dent[d := v.dent[d]] == v.dent;
  }

  lemma {:induction false} HeldCounts(v: View, d: nat)
    requires Books(v, None, None) && d in v.dent && d in v.handles && v.handles[d] > 0
    ensures v.dent[d].count > 0
  {}

  lemma {:induction false} ShrunkSize(v: View, w: View)
    requires Shrunk(v, w)
    ensures |w.dent| <= |v.dent| && w.dent.Keys <= v.dent.Keys
  {
    SubsetSize(w.dent.Keys, v.dent.Keys);
  }

  lemma {:induction false} SubsetSize(s: set<nat>, t: set<nat>)
    requires s <= t
    ensures |s| <= |t|
  {
    if s != {} {
      var x :| x in s;
      SubsetSize(s - {x}, t - {x});
    }
  }

  lemma {:induction false} UnusedIn(v: View, d: nat)
    requires Books(v, None, None) && d in v.unused
    ensures d in v.dent && v.dent[d].count == 0
  {}

  /** How many dentries are marked as used lately. */
  ghost function Marks(dent: map<nat, Dentry>): nat { |Marked(dent)| }

  ghost function Marked(dent: map<nat, Dentry>): set<nat> { set x | x in dent && dent[x].referenced }

  lemma {:induction false} MarkCleared(dent: map<nat, Dentry>, d: nat)
    requires d in dent && dent[d].referenced
    ensures Marks(dent[d := dent[d].(referenced := false)]) < Marks(dent)
  {
    assert Marked(dent[d := dent[d].(referenced := false)]) == Marked(dent) - {d};
  }

  // ---- the order of pruning ----

  /** How many dentries of a list are not marked. */
  ghost function Cold(dent: map<nat, Dentry>, s: seq<nat>): nat {
    if s == [] then 0 else (if s[0] in dent && dent[s[0]].referenced then 0 else 1) + Cold(dent, s[1..])
  }

  /** The list of `v0` was worked off from its tail down to place `k`: the marked dentries were
      put back at the head, the others freed. */
  ghost predicate Passed(v0: View, v: View, k: nat) {
    && k <= |v0.unused| && k <= |v.unused| && v.unused[|v.unused| - k..] == v0.unused[..k] && NoDuplicates(v0.unused)
    && (forall j :: 0 <= j < |v0.unused| ==> v0.unused[j] in v0.dent)
    && (forall j :: 0 <= j < k ==>
        v0.unused[j] in v.dent && v.dent[v0.unused[j]].referenced == v0.dent[v0.unused[j]].referenced)
    && (forall j :: k <= j < |v0.unused| ==>
      if v0.dent[v0.unused[j]].referenced then v0.unused[j] in v.unused && v0.unused[j] in v.dent
        else v0.unused[j] !in v.dent)
  }

  /** The unmarked dentries of the list are gone. */
  ghost predicate ColdGone(v0: View, v: View) {
    forall j :: 0 <= j < |v0.unused| && v0.unused[j] in v0.dent && !v0.dent[v0.unused[j]].referenced ==>
      v0.unused[j] !in v.dent
  }

  lemma {:induction false} PassStart(v: View)
    requires Books(v, None, None)
    ensures Passed(v, v, |v.unused|) && Cold(v.dent, v.unused[|v.unused|..]) == 0
  {
    hide Forest, Links;
    assert v.unused[..|v.unused|] == v.unused && v.unused[0..] == v.unused && v.unused[|v.unused|..] == [];
    assert forall j :: 0 <= j < |v.unused| ==> v.unused[j] in v.unused;
  }

  lemma {:induction false} FirstPassDone(v0: View, v: View)
    requires Passed(v0, v, 0)
    ensures ColdGone(v0, v) && v0.unused[0..] == v0.unused
  {}

  lemma {:induction false} PassedLast(v0: View, v: View, k: nat)
    requires Passed(v0, v, k) && k > 0 && v.unused != []
    ensures k <= |v0.unused| && v.unused[|v.unused| - 1] == v0.unused[k - 1] && v0.unused[k - 1] in v0.dent
    ensures v0.unused[k - 1] in v.dent
    ensures v.dent[v0.unused[k - 1]].referenced == v0.dent[v0.unused[k - 1]].referenced
    ensures Cold(v0.dent, v0.unused[k - 1..]) == Cold(v0.dent, v0.unused[k..]) +
      if v0.dent[v0.unused[k - 1]].referenced then 0 else 1
  {
    assert v.unused[|v.unused| - k..][k - 1] == v0.unused[..k][k - 1];
    assert v0.unused[k - 1..][1..] == v0.unused[k..];
  }

  lemma {:induction false} GoneStays(v0: View, v: View, w: View)
    requires ColdGone(v0, v) && Shrunk(v, w)
    ensures ColdGone(v0, w)
  {}

  lemma {:induction false} KeptShrunk(v: View, w: View)
    requires Kept(v, w)
    ensures Shrunk(v, w)
  {}

  lemma {:induction false} JoinedHead(v: View, d: nat, deletes: set<nat>)
    requires Forest(Tree(v)) && d in v.dent
    ensures var w := Joined(v, d, deletes); w == v.unused || (|w| == |v.unused| + 1 && w[1..] == v.unused)
    decreases DepthOf(Tree(v), d)
  {
    hide Forest, Field;
    UnderDef(Tree(v), d, d);
    if v.dent[d].parent != d { JoinedHead(v, v.dent[d].parent, deletes); }
  }

  lemma {:induction false} ColdTail(dent: map<nat, Dentry>, s: seq<nat>, k: nat)
    requires k <= |s|
    ensures Cold(dent, s[k..]) <= Cold(dent, s)
  {
    if k == 0 {
      assert s[0..] == s;
    } else {
      ColdTail(dent, s[1..], k - 1);
      assert s[1..][k - 1..] == s[k..];
    }
  }

  lemma {:induction false} PassedAll(v0: View, v: View, k: nat)
    requires Passed(v0, v, k) && v.unused == []
    ensures k == 0 && ColdGone(v0, v) && v0.unused[k..] == v0.unused
  {}

  /** What a step may do to the list: its last dentry goes away, and at most one joins the head. */
  ghost predicate Popped(u: seq<nat>, w: seq<nat>) {
    u != [] && (w == u[..|u| - 1] || (|w| == |u| && w[1..] == u[..|u| - 1]))
  }

  lemma {:induction false} PoppedTail(u: seq<nat>, w: seq<nat>, k: nat, l: seq<nat>)
    requires Popped(u, w) && 0 < k <= |u| && k <= |l| && u[|u| - k..] == l[..k]
    ensures k - 1 <= |w| && w[|w| - (k - 1)..] == l[..k - 1]
    ensures forall x :: x in u && x != u[|u| - 1] ==> x in w
  {
    var m := u[..|u| - 1];
    assert m[|m| - (k - 1)..] == u[|u| - k..][..k - 1];
    assert u == m + [u[|u| - 1]];
    if w != m {
      assert w == [w[0]] + m;
      assert w[|w| - (k - 1)..] == m[|m| - (k - 1)..];
    }
  }

  lemma {:induction false} PassRequeue(v0: View, v: View, w: View, k: nat)
    requires Passed(v0, v, k) && k > 0 && v.unused != []
    requires var d := v.unused[|v.unused| - 1];
      && d in v.dent && v.dent[d].referenced && w.unused == [d] + v.unused[..|v.unused| - 1]
      && w.dent == v.dent[d := v.dent[d].(referenced := false)]
    ensures Passed(v0, w, k - 1)
  {
    PassedLast(v0, v, k);
    PoppedTail(v.unused, w.unused, k, v0.unused);
  }

  lemma {:induction false} PassPrune(v0: View, v: View, w: View, k: nat)
    requires Passed(v0, v, k) && k > 0 && v.unused != []
    requires Popped(v.unused, w.unused) && Kept(v, w) && Books(w, None, None)
    requires var d := v.unused[|v.unused| - 1]; d in v.dent && !v.dent[d].referenced && d !in w.dent
    ensures Passed(v0, w, k - 1)
  {
    hide Books, Shrunk, Popped, Cold;
    PassedLast(v0, v, k);
    PoppedTail(v.unused, w.unused, k, v0.unused);
    UnusedAreIn(w);
    TailIn(w.unused, k - 1, v0.unused);
    ShrunkKeys(v, w);
  }

  lemma {:induction false} UnusedAreIn(v: View)
    requires Books(v, None, None)
    ensures forall x :: x in v.unused ==> x in v.dent
  {}

  lemma {:induction false} TailIn(w: seq<nat>, k: nat, l: seq<nat>)
    requires k <= |w| && k <= |l| && w[|w| - k..] == l[..k]
    ensures forall j :: 0 <= j < k ==> l[j] in w
  {
    forall j | 0 <= j < k ensures l[j] in w { assert w[|w| - k..][j] == w[|w| - k + j]; }
  }

  lemma {:induction false} ShrunkKeys(v: View, w: View)
    requires Kept(v, w)
    ensures forall x :: x in w.dent ==> x in v.dent
  {}

  /** Which dentries of the list are left. */
  lemma {:induction false} PruneMeans(v0: View, v: View, k: nat)
    ensures Passed(v0, v, k) ==> forall j :: 0 <= j < |v0.unused| && v0.unused[j] in v0.dent ==>
      (v0.unused[j] in v.dent <==> j < k || v0.dent[v0.unused[j]].referenced)
    ensures ColdGone(v0, v) ==>
      forall j :: 0 <= j < |v0.unused| && v0.unused[j] in v0.dent && !v0.dent[v0.unused[j]].referenced ==>
        v0.unused[j] !in v.dent
  {}

  /** How far pruning is with the list it found: at place `k` of it, or through with it. */
  datatype Progress = First(k: nat) | Second

  ghost predicate Pruning(v0: View, v: View, n: nat, at: Progress) {
    && Shrunk(v0, v) && |v.dent| + n <= |v0.dent|
    && match at
       case First(k) => Passed(v0, v, k) && n == Cold(v0.dent, v0.unused[k..])
       case Second => ColdGone(v0, v) && n >= Cold(v0.dent, v0.unused)
  }

  lemma {:induction false} IsPopped(u: seq<nat>, w: seq<nat>)
    requires u != [] && (w == u[..|u| - 1] || (|w| == |u| && w[1..] == u[..|u| - 1]))
    ensures Popped(u, w)
  {}

  lemma {:induction false} PruningRequeue(v0: View, v: View, w: View, n: nat, at: Progress) returns (next: Progress)
    requires Pruning(v0, v, n, at) && v.unused != [] && Shrunk(v, w) && |w.dent| == |v.dent|
    requires var d := v.unused[|v.unused| - 1];
      && d in v.dent && v.dent[d].referenced && w.unused == [d] + v.unused[..|v.unused| - 1]
      && w.dent == v.dent[d := v.dent[d].(referenced := false)]
    ensures Pruning(v0, w, n, next)
  {
    hide Shrunk, Passed, ColdGone, Cold;
    ShrunkTrans(v0, v, w);
    if at.First? && at.k > 0 {
      PassedLast(v0, v, at.k);
      PassRequeue(v0, v, w, at.k);
      next := First(at.k - 1);
    } else {
      if at.First? { FirstPassDone(v0, v); }
      GoneStays(v0, v, w);
      next := Second;
    }
  }

  lemma {:induction false} FirstPruned(v0: View, v: View, w: View, k: nat)
    requires Passed(v0, v, k) && k > 0 && v.unused != [] && Popped(v.unused, w.unused) && Kept(v, w)
    requires Books(w, None, None)
    requires var d := v.unused[|v.unused| - 1]; d in v.dent && !v.dent[d].referenced && d !in w.dent
    ensures Passed(v0, w, k - 1) && k <= |v0.unused|
    ensures v0.unused[k - 1] in v0.dent && !v0.dent[v0.unused[k - 1]].referenced
    ensures Cold(v0.dent, v0.unused[k - 1..]) == Cold(v0.dent, v0.unused[k..]) + 1
  {
    hide Passed, Cold, Books, Popped, Kept;
    PassedLast(v0, v, k);
    PassPrune(v0, v, w, k);
  }

  lemma {:induction false} PruningPrune(v0: View, v: View, w: View, n: nat, at: Progress) returns (next: Progress)
    requires Pruning(v0, v, n, at) && v.unused != [] && Popped(v.unused, w.unused) && Kept(v, w)
    requires Books(w, None, None) && |w.dent| < |v.dent|
    requires var d := v.unused[|v.unused| - 1]; d in v.dent && !v.dent[d].referenced && d !in w.dent
    ensures Pruning(v0, w, n + 1, next)
    ensures match next
      case First(k) => k < |v0.unused| && v0.unused[k] in v0.dent && !v0.dent[v0.unused[k]].referenced
      case Second => n >= Cold(v0.dent, v0.unused)
  {
    hide Shrunk, Passed, ColdGone, Cold, Books, Popped, Kept;
    KeptShrunk(v, w);
    ShrunkTrans(v0, v, w);
    if at.First? && at.k > 0 {
      FirstPruned(v0, v, w, at.k);
      next := First(at.k - 1);
    } else {
      if at.First? { FirstPassDone(v0, v); }
      GoneStays(v0, v, w);
      next := Second;
    }
  }

  lemma {:induction false} RotatedBooks(v: View)
    requires Books(v, None, None) && v.unused != []
    ensures var n := |v.unused| - 1;
      && v.unused[n] in v.dent
      && Books(v.(unused := [v.unused[n]] + v.unused[..n],
          dent := v.dent[v.unused[n] := v.dent[v.unused[n]].(referenced := false)]), None, None)
  {
    hide Forest, Links;
    var d := v.unused[|v.unused| - 1];
    assert d in v.unused;
    ChangedBooks(v, None, None, d, v.dent[d].(referenced := false), v.handles[d], None, None);
    assert v.handles[d := v.handles[d]] == v.handles;
  }

  lemma {:induction false} UnusedCount(v: View)
    requires Books(v, None, None)
    ensures v.nrUnused == |v.unused|
  {}

  lemma {:induction false} UnusedHas(v: View, d: nat)
    requires Books(v, None, None) && d in v.dent && v.dent[d].count == 0
    ensures d in v.unused && NoDuplicates(v.unused)
  {}

  // ---- choosing the unused dentries of a subtree ----

  /** The dentries of a list that have no references. */
  ghost function Idle(dent: map<nat, Dentry>, s: seq<nat>): seq<nat> {
    if s == [] then []
    else
      var x := s[|s| - 1];
      var t := Idle(dent, s[..|s| - 1]);
      if x in dent && dent[x].count == 0 then t + [x] else t
  }

  lemma {:induction false} IdleNext(dent: map<nat, Dentry>, s: seq<nat>, x: nat)
    ensures Idle(dent, s + [x]) == if x in dent && dent[x].count == 0 then Idle(dent, s) + [x] else Idle(dent, s)
  {
    assert (s + [x])[..|s|] == s;
  }

  lemma {:induction false} IdleNone(dent: map<nat, Dentry>)
    ensures Idle(dent, []) == []
  {}

  lemma {:induction false} IdleIn(dent: map<nat, Dentry>, s: seq<nat>, x: nat)
    ensures x in Idle(dent, s) <==> x in s && x in dent && dent[x].count == 0
  {
    if s != [] {
      IdleIn(dent, s[..|s| - 1], x);
      assert s == s[..|s| - 1] + [s[|s| - 1]];
    }
  }

  lemma {:induction false} WithoutHead(s: seq<nat>, l: seq<nat>, x: nat)
    requires x in s
    ensures Without(s + l, x) == Without(s, x) + l
  {
    IndexOfFirst(s, l, x);
  }

  lemma {:induction false} IndexOfFirst(s: seq<nat>, l: seq<nat>, x: nat)
    requires x in s
    ensures IndexOf(s + l, x) == IndexOf(s, x)
  {
    if s[0] != x {
      IndexOfFirst(s[1..], l, x);
      assert (s + l)[1..] == s[1..] + l;
    }
  }

  /** Moving one more dentry to the tail. */
  lemma {:induction false} MovedNext(u: seq<nat>, l: seq<nat>, x: nat)
    requires NoDuplicates(u) && x in u && x !in l
    ensures x in Minus(u, Elems(l)) + l
    ensures Without(Minus(u, Elems(l)) + l, x) + [x] == Minus(u, Elems(l + [x])) + (l + [x])
  {
    hide Minus, Without;
    MinusOne(u, Elems(l), x);
    WithoutHead(Minus(u, Elems(l)), l, x);
    assert Elems(l + [x]) == Elems(l) + {x};
    var m := Minus(u, Elems(l + [x]));
    assert (m + l) + [x] == m + (l + [x]);
  }

  lemma {:induction false} MovedOnce(u: seq<nat>, x: nat)
    requires NoDuplicates(u) && x in u
    ensures |Without(u, x) + [x]| == |u| && NoDuplicates(Without(u, x) + [x])
    ensures forall y :: y in Without(u, x) + [x] <==> y in u
  {
    hide Without;
    WithoutFacts(u, x);
    ConcatOnce(Without(u, x), [x]);
    assert |Without(u, x)| == |u| - 1 by { WithoutSize(u, x); }
  }

  // ---- what shrinking below a dentry leaves ----

  /** Some user holds `x` or a dentry below it. */
  ghost predicate Pinned(v: View, x: nat)
    requires Forest(Tree(v)) && v.handles.Keys == v.dent.Keys
  {
    exists y :: y in v.dent && v.handles[y] > 0 && Under(Tree(v), x, y)
  }

  /** The dentries below a dentry are the others under it. */
  lemma {:induction false} IsBelow(a: Arena, root: nat, x: nat)
    requires Forest(a) && root in a.kids && x in a.kids
    ensures x in Below(a, root) <==> x != root && Under(a, root, x)
  {
    hide Forest, Under, Below;
    if x != root { BelowIsUnder(a, root, x); } else { NotBelowItself(a, root); }
  }

  lemma {:induction false} IdleBelow(v: View, parent: nat)
    requires Forest(Tree(v)) && parent in v.dent
    ensures forall x :: x in Idle(v.dent, Below(Tree(v), parent)) <==>
      x in v.dent && x != parent && Under(Tree(v), parent, x) && v.dent[x].count == 0
  {
    hide Forest, Under, Below, Idle;
    forall x ensures x in Idle(v.dent, Below(Tree(v), parent)) <==>
      x in v.dent && x != parent && Under(Tree(v), parent, x) && v.dent[x].count == 0
    {
      IdleIn(v.dent, Below(Tree(v), parent), x);
      if x in v.dent { IsBelow(Tree(v), parent, x); }
    }
  }

  lemma {:induction false} TailIs(a: seq<nat>, b: seq<nat>)
    ensures (a + b)[|a + b| - |b|..] == b
  {}

  lemma {:induction false} NotBelowItself(a: Arena, root: nat)
    requires Forest(a) && root in a.kids
    ensures root !in Below(a, root)
  {
    hide Forest, Under, Below;
    PreIs(a, root);
    PreOnce(a, root);
    var pre := Pre(a, root);
    forall i | 0 <= i < |Below(a, root)| ensures Below(a, root)[i] != root { assert pre[0] != pre[i + 1]; }
  }

  lemma {:induction false} BelowIsUnder(a: Arena, root: nat, x: nat)
    requires Forest(a) && root in a.kids && x in a.kids && x != root
    ensures x in Below(a, root) <==> Under(a, root, x)
  {
    hide Under, Below;
    BelowOnce(a, root);
    PreIsSubtree(a, root, x);
  }

  lemma {:induction false} InUse(v: View, x: nat)
    requires Books(v, None, None) && x in v.dent && v.dent[x].count != 0
    ensures x in v.handles && (v.handles[x] > 0 || v.dent[x].subdirs != [])
  {}

  /** With no idle dentry below `p`, every dentry there leads down to one that is held. */
  lemma {:induction false} Holder(v: View, p: nat, x: nat) returns (y: nat)
    requires Books(v, None, None) && p in v.dent && x in v.dent && x != p
    requires Forest(Tree(v)) && Under(Tree(v), p, x)
    requires forall z :: z in Below(Tree(v), p) ==> z in v.dent && v.dent[z].count != 0
    ensures y in v.dent && y in v.handles && v.handles[y] > 0 && Under(Tree(v), x, y)
    decreases v.height - DepthOf(Tree(v), x)
  {
    hide Books, Under, Below, Field, NodeOk;
    var a := Tree(v);
    BelowIsUnder(a, p, x);
    InUse(v, x);
    if v.handles[x] > 0 {
      y := x;
      UnderDef(a, x, x);
    } else {
      ChildFacts(a, x, 0);
      var c := a.kids[x][0];
      UnderChild(a, p, x, c);
      DepthBound(a, c);
      y := Holder(v, p, c);
      UnderUp(a, c, y);
    }
  }

  lemma {:induction false} DepthBound(a: Arena, c: nat)
    requires Forest(a) && c in a.kids
    ensures a.depth[c] <= a.height
  {
    assert NodeOk(a, c);
  }

  /** Ancestry among the dentries that stay is what it was. */
  lemma {:induction false} UnderBack(v: View, w: View, x: nat, y: nat)
    requires Forest(Tree(v)) && Forest(Tree(w)) && Shrunk(v, w) && y in w.dent && Under(Tree(w), x, y)
    ensures Under(Tree(v), x, y)
    decreases DepthOf(Tree(w), y)
  {
    hide NodeOk, Field, Under;
    UnderDef(Tree(w), x, y);
    UnderDef(Tree(v), x, y);
    if x != y {
      UnderBack(v, w, x, w.dent[y].parent);
    }
  }

  /** The ancestors of a dentry that stays stay. */
  lemma {:induction false} UnderKept(v: View, w: View, x: nat, y: nat)
    requires Forest(Tree(v)) && Forest(Tree(w)) && Shrunk(v, w) && y in w.dent && Under(Tree(v), x, y)
    ensures x in w.dent && Under(Tree(w), x, y)
    decreases DepthOf(Tree(v), y)
  {
    hide NodeOk, Field, Under;
    UnderDef(Tree(v), x, y);
    UnderDef(Tree(w), x, y);
    if x != y {
      UnderKept(v, w, x, v.dent[y].parent);
    }
  }

  /** Nothing idle is left below `p`. */
  ghost predicate NoneIdle(v: View, p: nat)
    requires Forest(Tree(v)) && p in v.dent
  {
    forall z :: z in Below(Tree(v), p) ==> z in v.dent && v.dent[z].count != 0
  }

  /** Once nothing idle is left below `p`, what stayed below it are exactly the dentries that were
      pinned: those held by a user, and those with such a dentry below them. */
  lemma {:induction false} PinnedStay(v: View, w: View, p: nat, x: nat)
    requires Books(v, None, None) && Books(w, None, None) && Shrunk(v, w) && p in w.dent && NoneIdle(w, p)
    requires x in v.dent && x != p && Under(Tree(v), p, x)
    ensures x in w.dent <==> Pinned(v, x)
  {
    hide Books, Under, Below, Field, Forest;
    BooksFacts(v, None, None);
    BooksFacts(w, None, None);
    if x in w.dent {
      UnderKept(v, w, p, x);
      var y := Holder(w, p, x);
      UnderBack(v, w, x, y);
    }
    if Pinned(v, x) {
      var y :| y in v.dent && v.handles[y] > 0 && Under(Tree(v), x, y);
      UnderKept(v, w, x, y);
    }
  }

  lemma {:induction false} ShrunkSame(v: View, w: View, w': View)
    requires Shrunk(v, w) && w'.dent == w.dent && w'.handles == w.handles
    ensures Shrunk(v, w')
  {}

  lemma {:induction false} PinnedIsKept(v: View, w: View, p: nat)
    requires Books(v, None, None) && Books(w, None, None) && Shrunk(v, w) && p in v.dent && Forest(Tree(v))
    ensures v.handles.Keys == v.dent.Keys && (Pinned(v, p) ==> p in w.dent)
  {
    hide Books, Under, Field, Forest;
    BooksFacts(v, None, None);
    BooksFacts(w, None, None);
    if Pinned(v, p) {
      var y :| y in v.dent && v.handles[y] > 0 && Under(Tree(v), p, y);
      UnderKept(v, w, p, y);
    }
  }

  lemma {:induction false} NothingIdle(v: View, p: nat)
    requires Books(v, None, None) && p in v.dent && Idle(v.dent, Below(Tree(v), p)) == []
    ensures NoneIdle(v, p)
  {
    hide Books, Below, Idle;
    BooksFacts(v, None, None);
    var b := Below(Tree(v), p);
    BelowOnce(Tree(v), p);
    forall z | z in b ensures z in v.dent && v.dent[z].count != 0 {
      PreUnder(Tree(v), p, z);
      IdleIn(v.dent, b, z);
    }
  }

  // ---- new dentries and new references ----

  const FRESH := Dentry(1, false, 0, [], false)

  /** The cache with a new dentry that its creator holds, as a root or first among the children of
      `p`, which it then holds a reference on. */
  ghost function Grown(v: View, q: nat, p: Option<nat>): View
    requires q !in v.dent && (p.Some? ==> p.value in v.dent && p.value in v.depth)
  {
    var d := if p.Some? then v.depth[p.value] + 1 else 0;
    v.(dent := GrownDent(v.dent, q, p), handles := v.handles[q := 1], depth := v.depth[q := d],
       height := if d > v.height then d else v.height)
  }

  function GrownDent(dent: map<nat, Dentry>, q: nat, p: Option<nat>): map<nat, Dentry>
    requires q !in dent && (p.Some? ==> p.value in dent)
  {
    match p
    case None => dent[q := FRESH.(parent := q)]
    case Some(p) =>
      dent[q := FRESH.(parent := p)][p := dent[p].(count := dent[p].count + 1, subdirs := [q] + dent[p].subdirs)]
  }

  lemma {:induction false} GrownChild(v: View, q: nat, x: nat)
    requires q !in v.dent && x in v.dent && x in v.depth
    ensures Tree(Grown(v, q, Some(x))) == WithChild(WithRoot(Tree(v), q), q, x)
  {
    hide Field;
    var e := v.dent[q := FRESH.(parent := x)];
    LinksUpdate(Kids, Parent, v.dent, q, e[q]);
    LinksUpdate(Kids, Parent, e, x, GrownDent(v.dent, q, Some(x))[x]);
    var g, c := Tree(Grown(v, q, Some(x))), WithChild(WithRoot(Tree(v), q), q, x);
    assert g.kids == c.kids && g.parent == c.parent && g.depth == c.depth;
  }

  lemma {:induction false} GrownLinks(v: View, q: nat, p: Option<nat>)
    requires Forest(Tree(v)) && q !in v.dent && (p.Some? ==> p.value in v.dent)
    ensures p.Some? ==> p.value in v.depth
    ensures Forest(Tree(Grown(v, q, p)))
  {
    hide Field, NodeOk;
    var a := Tree(v);
    WithRootForest(a, q);
    var b := WithRoot(a, q);
    if p.None? {
      LinksUpdate(Kids, Parent, v.dent, q, FRESH.(parent := q));
    } else {
      WithChildForest(b, q, p.value);
      GrownChild(v, q, p.value);
    }
  }

  lemma {:induction false} GrownCounts(v: View, q: nat, p: Option<nat>)
    requires CountsOk(v.dent, v.handles, None) && q !in v.dent && (p.Some? ==> p.value in v.dent)
    ensures CountsOk(GrownDent(v.dent, q, p), v.handles[q := 1], None)
  {}

  lemma {:induction false} GrownUnused(v: View, q: nat, p: Option<nat>)
    requires UnusedOk(v.dent, v.unused, None) && q !in v.dent
    requires p.Some? ==> p.value in v.dent && v.dent[p.value].count > 0
    ensures UnusedOk(GrownDent(v.dent, q, p), v.unused, None)
  {
    hide NoDuplicates;
  }

  lemma {:induction false} GrownBooks(v: View, q: nat, p: Option<nat>)
    requires Books(v, None, None) && q !in v.dent && (p.Some? ==> p.value in v.dent && v.dent[p.value].count > 0)
    ensures p.Some? ==> p.value in v.depth
    ensures Books(Grown(v, q, p), None, None)
  {
    hide Forest, Links, GrownDent, CountsOk, UnusedOk;
    GrownLinks(v, q, p);
    GrownCounts(v, q, p);
    GrownUnused(v, q, p);
  }

  /** The unused list once `d` is in use. */
  function InUseAgain(unused: seq<nat>, d: nat): seq<nat> { if d in unused then Without(unused, d) else unused }

  lemma {:induction false} HeldBooks(v: View, d: nat, n: Dentry)
    requires Books(v, None, None) && d in v.dent
    requires n == v.dent[d].(count := v.dent[d].count + 1, referenced := n.referenced)
    ensures d in v.handles && (d in v.unused <==> v.dent[d].count == 0)
    ensures var u := InUseAgain(v.unused, d);
      Books(Changed(v, d, n, v.handles[d] + 1).(unused := u, nrUnused := |u|), None, None)
  {
    hide Forest, Links, Without;
    LinksKept(v.dent, v.depth, v.height, d, n);
    if d in v.unused { WithoutFacts(v.unused, d); }
  }

  class Cache {
    var dent: map<nat, Dentry>
    var unused: seq<nat>
    var nrUnused: int
    ghost var handles: map<nat, nat>
    ghost var depth: map<nat, nat>
    ghost var height: nat

    constructor ()
      ensures Valid() && dent == map[] && unused == []
    {
      dent, unused, nrUnused := map[], [], 0;
      handles, depth, height := map[], map[], 0;
    }

    ghost function V(): View
      reads this
    {
      View(dent, unused, nrUnused, handles, depth, height)
    }

    ghost predicate Valid()
      reads this
    {
      Books(V(), None, None)
    }

    /** Counts one reference less; the dentry it leaves without any is on no list. */
    method DropCount(d: nat) returns (last: bool)
      requires d in dent && Books(V(), Some(d), None)
      modifies this`dent
      ensures dent == old(dent)[d := old(dent[d]).(count := old(dent[d].count) - 1)] && last == (dent[d].count == 0)
      ensures !last ==> Books(V(), None, None)
      ensures last ==> Books(V(), None, Some(d)) && d !in unused
      ensures Kept(old(V()), V()) && dent.Keys == old(dent).Keys
    {
      hide Forest, Links;
      ghost var v := V();
      dent := dent[d := dent[d].(count := dent[d].count - 1)];
      last := dent[d].count == 0;
      ghost var off := if last then Some(d) else None;
      ChangedBooks(v, Some(d), None, d, dent[d], handles[d], None, off);
      assert handles[d := handles[d]] == handles;
    }

    method Unhash(d: nat)
      requires d in dent && Books(V(), None, Some(d))
      modifies this`dent
      ensures dent == old(dent)[d := old(dent[d]).(hashed := false)] && Books(V(), None, Some(d))
      ensures Kept(old(V()), V()) && dent.Keys == old(dent).Keys
    {
      hide Forest, Links;
      ghost var v := V();
      dent := dent[d := dent[d].(hashed := false)];
      ChangedBooks(v, None, Some(d), d, dent[d], handles[d], None, Some(d));
      assert handles[d := handles[d]] == handles;
    }

    /** A dentry without references goes to the head of the unused list. */
    method Retire(d: nat)
      requires d in dent && Books(V(), None, Some(d)) && dent[d].count == 0 && dent[d].hashed
      modifies this`unused, this`nrUnused
      ensures Valid() && unused == [d] + old(unused) && Kept(old(V()), V())
    {
      hide Forest, Links;
      unused := [d] + unused;
      nrUnused := nrUnused + 1;
    }

    /** Frees a dentry; its parent, unless it is a root, is left owing a reference. */
    method Kill(d: nat) returns (p: nat)
      requires d in dent && Books(V(), None, Some(d)) && dent[d].count == 0
      modifies this
      ensures p == old(dent[d].parent) && unused == old(unused) && dent.Keys == old(dent).Keys - {d}
      ensures SameUse(old(V()), V())
      ensures Kept(old(V()), V()) && |dent| < |old(dent)|
      ensures Books(V(), if p == d then None else Some(p), None) && p in old(dent) && (p != d ==> p in dent)
    {
      hide Books, Kept, Without, Links;
      KilledBooks(V(), d);
      BooksFacts(V(), None, Some(d));
      KilledShrinks(V(), d);
      KilledKeys(V(), d);
      KilledSameUse(V(), d);
      p := dent[d].parent;
      if p != d { dent := dent[p := dent[p].(subdirs := Without(dent[p].subdirs, d))]; }
      dent := dent - {d};
      handles := handles - {d};
      depth := depth - {d};
    }

    /** A dentry left without references is kept on the unused list if its name can be found and
        its file system does not object; else it goes, and its parent is next to give up one. */
    method Settle(d: nat, deletes: set<nat>) returns (next: Option<nat>)
      requires d in dent && Books(V(), None, Some(d)) && dent[d].count == 0
      modifies this
      ensures Kept(old(V()), V())
      ensures old(dent[d].hashed) && d !in deletes ==>
        next.None? && Valid() && dent.Keys == old(dent).Keys && unused == [d] + old(unused)
      ensures !(old(dent[d].hashed) && d !in deletes) ==>
        && next == (if old(dent[d].parent) == d then None else Some(old(dent[d].parent)))
        && dent.Keys == old(dent).Keys - {d} && unused == old(unused) && |dent| < |old(dent)| && SameUse(old(V()), V())
        && Books(V(), next, None) && (next.Some? ==> next.value in dent)
    {
      hide Books, Kept, Links, SameUse;
      ghost var u := V();
      if d in deletes { Unhash(d); }
      if dent[d].hashed {
        Retire(d);
        return None;
      }
      ghost var w := V();
      assert dent == old(dent)[d := dent[d]];
      var p := Kill(d);
      if d in deletes { KeptTrans(u, w, V()); }
      SameUseWithout(u, w, V(), d);
      next := if p == d then None else Some(p);
    }

    /** Gives up one counted reference to `d`. */
    method GiveUp(d: nat, deletes: set<nat>) returns (next: Option<nat>)
      requires d in dent && Books(V(), Some(d), None)
      modifies this
      ensures old(dent[d].count) > 0 && GaveUp(old(V()), V(), d, next, deletes)
      ensures old(dent[d].count) > 1 ==> next.None? && dent.Keys == old(dent).Keys && unused == old(unused)
      ensures old(dent[d].count) == 1 && old(dent[d].hashed) && d !in deletes ==>
        next.None? && dent.Keys == old(dent).Keys && unused == [d] + old(unused)
      ensures old(dent[d].count) == 1 && (!old(dent[d].hashed) || d in deletes) ==>
        && dent.Keys == old(dent).Keys - {d} && unused == old(unused)
        && next == if old(dent[d].parent) == d then None else Some(old(dent[d].parent))
      ensures next.None? ==> Valid()
      ensures next.Some? ==> Books(V(), next, None) && |dent| < |old(dent)|
    {
      hide Books, Kept, Links, SameUse;
      OwesOne(V(), d);
      var last := DropCount(d);
      if !last { return None; }
      ghost var w := V();
      next := Settle(d, deletes);
      KeptTrans(old(V()), w, V());
      if d !in dent { SameUseWithout(old(V()), w, V(), d); }
    }

    /** Gives up a counted reference to `d0`, and then those of the dentries that go with it. */
    method Release(d0: nat, deletes: set<nat>)
      requires d0 in dent && Books(V(), Some(d0), None)
      modifies this
      ensures Valid() && Kept(old(V()), V())
      ensures forall x :: x in dent <==> x in old(dent) && x !in GivenUp(old(V()), d0, deletes)
      ensures unused == Joined(old(V()), d0, deletes)
      ensures Forest(Tree(old(V()))) && forall x :: x in old(dent) ==>
        (x !in dent <==>
          && Under(Tree(old(V())), x, d0)
          && forall y :: OnTheWay(old(V()), x, y, d0) ==>
               old(dent)[y].count == 1 && (!old(dent)[y].hashed || y in deletes))
      ensures (forall y :: y in old(dent) && Under(Tree(old(V())), y, d0) ==> y !in dent) ==> unused == old(unused)
      ensures forall x :: x in dent && OnTheWay(old(V()), x, x, d0) && FirstIn(old(V()), V(), x, d0) ==>
        unused == if old(dent)[x].count == 1 then [x] + old(unused) else old(unused)
    {
      hide Books, Links, Forest, GaveUp, GivenUp, Joined, SameUse, Under, OnTheWay, FirstIn;
      ghost var v0, gone: seq<nat> := V(), [];
      BooksFacts(v0, Some(d0), None);
      SameUseSelf(v0);
      var next := Some(d0);
      while next.Some?
        invariant Forest(Tree(v0)) && Releasing(v0, V(), d0, next, gone, deletes)
        invariant next.None? ==> Valid()
        invariant next.Some? ==> Books(V(), next, None)
        decreases next.Some?, |dent|
      {
        ghost var v := V();
        var d := next.value;
        next := GiveUp(d, deletes);
        ReleasingNext(v0, v, V(), d0, d, next, gone, deletes);
        gone := if Stays(v.dent[d], d, deletes) then gone else gone + [d];
      }
      OwesOne(v0, d0);
      ReleasedExactly(v0, Some(d0), V(), d0, deletes);
    }

    /** dput: a user gives up a reference. */
    method Dput(d: nat, deletes: set<nat>)
      requires Valid() && d in dent && handles[d] > 0
      modifies this
      ensures Valid() && unused == Joined(old(V()), d, deletes)
      ensures forall x :: x in dent <==> x in old(dent) && x !in GivenUp(old(V()), d, deletes)
      ensures Kept(old(V()).(handles := old(handles)[d := old(handles[d]) - 1]), V())
      ensures Forest(Tree(old(V()))) && forall x :: x in old(dent) ==>
        (x !in dent <==>
          && Under(Tree(old(V())), x, d)
          && forall y :: OnTheWay(old(V()), x, y, d) ==>
               old(dent)[y].count == 1 && (!old(dent)[y].hashed || y in deletes))
      ensures (forall y :: y in old(dent) && Under(Tree(old(V())), y, d) ==> y !in dent) ==> unused == old(unused)
      ensures forall x :: x in dent && OnTheWay(old(V()), x, x, d) && FirstIn(old(V()), V(), x, d) ==>
        unused == if old(dent)[x].count == 1 then [x] + old(unused) else old(unused)
    {
      hide Forest, Links, Kept, Books, GivenUp, Joined, Under, OnTheWay, FirstIn;
      ReferenceGivenUp(V(), d);
      handles := handles[d := handles[d] - 1];
      SameChain(old(V()), V(), d, deletes);
      HeldCounts(old(V()), d);
      Release(d, deletes);
      ReleasedExactly(old(V()), None, V(), d, deletes);
    }

    /** prune_one_dentry: frees an unused dentry that is off the list, and gives up the reference it
        held on its parent. */
    method PruneOne(d: nat, deletes: set<nat>)
      requires d in dent && Books(V(), None, Some(d)) && dent[d].count == 0
      modifies this
      ensures Valid() && Kept(old(V()), V()) && |dent| < |old(dent)| && d !in dent
      ensures unused == old(unused) || (|unused| == |old(unused)| + 1 && unused[1..] == old(unused))
    {
      hide Books, Kept, Links, GivenUp, Joined;
      var p := Kill(d);
      ghost var w := V();
      if p != d {
        BooksFacts(w, Some(p), None);
        JoinedHead(w, p, deletes);
        Release(p, deletes);
        KeptTrans(old(V()), w, V());
        KeptSize(w, V());
      }
    }

    /** A dentry used since it was last seen loses its mark and goes back to the head of the list. */
    method Requeue(d: nat)
      requires Valid() && unused != [] && d == unused[|unused| - 1] && dent[d].referenced
      modifies this
      ensures Valid() && Shrunk(old(V()), V()) && unused == [d] + old(unused)[..|old(unused)| - 1]
      ensures dent == old(dent)[d := old(dent[d]).(referenced := false)]
      ensures |dent| == |old(dent)| && Marks(dent) < Marks(old(dent))
    {
      hide Forest, Links;
      MarkCleared(dent, d);
      RotatedBooks(V());
      dent := dent[d := dent[d].(referenced := false)];
      assert dent.Keys == old(dent).Keys;
      unused := [d] + unused[..|unused| - 1];
    }

    /** Takes a dentry off the tail of the list. */
    method TakeLast(d: nat)
      requires Valid() && unused != [] && d == unused[|unused| - 1]
      modifies this`unused, this`nrUnused
      ensures Books(V(), None, Some(d)) && dent[d].count == 0 && Kept(old(V()), V())
      ensures unused == old(unused)[..|old(unused)| - 1]
    {
      hide Forest, Links;
      assert d in unused;
      unused := unused[..|unused| - 1];
      nrUnused := nrUnused - 1;
    }

    /** One round of prune_dcache: the dentry at the tail is put back if it is marked, else freed. */
    method PruneNext(deletes: set<nat>, ghost v0: View, ghost n: nat, ghost at: Progress)
      returns (freed: bool, ghost next: Progress)
      requires Valid() && unused != [] && Pruning(v0, V(), n, at)
      modifies this
      ensures Valid() && Pruning(v0, V(), if freed then n + 1 else n, next)
      ensures freed ==> |dent| < |old(dent)|
      ensures !freed ==> |dent| == |old(dent)| && Marks(dent) < Marks(old(dent)) && unused != []
      ensures freed ==> match next
        case First(k) => k < |v0.unused| && v0.unused[k] in v0.dent && !v0.dent[v0.unused[k]].referenced
        case Second => n >= Cold(v0.dent, v0.unused)
    {
      hide Books, Shrunk, Links, Kept, Cold, Pruning, Popped, Marks;
      ghost var v := V();
      var d := unused[|unused| - 1];
      UnusedIn(v, d);
      if dent[d].referenced {
        Requeue(d);
        next := PruningRequeue(v0, v, V(), n, at);
        freed := false;
      } else {
        TakeLast(d);
        ghost var w := V();
        PruneOne(d, deletes);
        KeptTrans(v, w, V());
        assert Popped(v.unused, unused) by { IsPopped(v.unused, unused); }
        next := PruningPrune(v0, v, V(), n, at);
        freed := true;
      }
    }

    /** prune_dcache: frees dentries from the tail of the list until it has freed `count` of them
        or the list is empty; a count of 0 or less asks for all. With enough unmarked dentries on
        the list it frees the last `count` of them, those from place `k` on, and no marked one. */
    method PruneDcache(count: int, deletes: set<nat>) returns (ghost pruned: nat, ghost k: nat)
      requires Valid()
      modifies this
      ensures Valid() && Shrunk(old(V()), V()) && |dent| + pruned <= |old(dent)|
      ensures pruned == count || unused == []
      ensures old(unused) != [] ==> pruned > 0
      ensures 0 < count <= Cold(old(dent), old(unused)) ==>
        && k < |old(unused)| && old(unused)[k] in old(dent) && !old(dent)[old(unused)[k]].referenced
        && Cold(old(dent), old(unused)[k..]) == count && Passed(old(V()), V(), k)
        && (forall j :: 0 <= j < |old(unused)| && old(unused)[j] in old(dent) ==>
              (old(unused)[j] in dent <==> j < k || old(dent)[old(unused)[j]].referenced))
      ensures !(0 < count <= Cold(old(dent), old(unused))) ==>
        && ColdGone(old(V()), V())
        && forall j :: 0 <= j < |old(unused)| && old(unused)[j] in old(dent) ==>
             old(dent)[old(unused)[j]].referenced || old(unused)[j] !in dent
    {
      hide Books, Shrunk, Links, Cold, Passed, ColdGone, Marks;
      BooksFacts(V(), None, None);
      ghost var v0 := V();
      var left := count;
      pruned := 0;
      k := 0;
      ghost var at := First(|unused|);
      PassStart(v0);
      while unused != []
        invariant Valid() && Pruning(v0, V(), pruned, at) && left == count - pruned
        invariant unused == [] && v0.unused != [] ==> pruned > 0
        invariant count > 0 ==> pruned < count
        decreases |dent|, Marks(dent)
      {
        var freed;
        freed, at := PruneNext(deletes, v0, pruned, at);
        if freed {
          left := left - 1;
          pruned := pruned + 1;
          if left == 0 {
            if at.First? {
              k := at.k;
              ColdTail(v0.dent, v0.unused, k);
            }
            PruneMeans(v0, V(), k);
            return;
          }
        }
      }
      if at.First? { PassedAll(v0, V(), at.k); }
      PruneMeans(v0, V(), k);
    }

    /** Moves an unused dentry to the tail of the list. */
    method MoveToTail(d: nat)
      requires Valid() && d in unused
      modifies this`unused
      ensures Valid() && unused == Without(old(unused), d) + [d]
    {
      hide Forest, Links, Without;
      MovedOnce(unused, d);
      unused := Without(unused, d) + [d];
    }

    /** select_parent: walks what is below `parent` and moves every unused dentry it meets to the
        tail of the unused list. */
    method SelectParent(parent: nat) returns (found: nat)
      requires Valid() && parent in dent
      modifies this`unused
      ensures Valid()
      ensures var idle := Idle(dent, Below(Tree(V()), parent));
        found == |idle| && unused == Minus(old(unused), Elems(idle)) + idle
      ensures Forest(Tree(V())) && found <= |unused|
      ensures forall x :: x in unused[|unused| - found..] <==>
        x in dent && x != parent && Under(Tree(V()), parent, x) && dent[x].count == 0
    {
      hide Books, Field, Forest, Walking, Left, Idle, Minus, Without, Below, DepthOf, Under;
      ghost var a := Tree(V());
      ghost var v0, u, vis := V(), unused, [];
      BooksFacts(V(), None, None);
      WalkingStart(a, parent);
      MinusNothing(u, {});
      assert Elems([]) == {};
      assert Idle(dent, []) == [] by { IdleNone(dent); }
      var p: nat, i: nat := parent, 0;
      found := 0;
      while true
        invariant Valid() && Books(v0, None, None) && v0.dent == dent && Tree(V()) == a && Forest(a)
        invariant p in dent && i <= |dent[p].subdirs|
        invariant Walking(a, parent, p, i, vis)
        invariant found == |Idle(dent, vis)| && unused == Minus(u, Elems(Idle(dent, vis))) + Idle(dent, vis)
        decreases Left(a, parent, p, i), DepthOf(a, p)
      {
        if i < |dent[p].subdirs| {
          var d := dent[p].subdirs[i];
          WalkingVisit(a, parent, p, i, vis);
          IdleNext(dent, vis, d);
          i := i + 1;
          if dent[d].count == 0 {
            IdleIn(dent, vis, d);
            UnusedHas(V(), d);
            UnusedHas(v0, d);
            MovedNext(u, Idle(dent, vis), d);
            MoveToTail(d);
            found := found + 1;
          }
          vis := vis + [d];
          if dent[d].subdirs != [] { p, i := d, 0; }
        } else if p != parent {
          WalkingUp(a, parent, p, i, vis);
          i := IndexOf(dent[dent[p].parent].subdirs, p) + 1;
          p := dent[p].parent;
        } else {
          break;
        }
      }
      WalkingEnd(a, parent, i, vis);
      IdleBelow(V(), parent);
      TailIs(Minus(u, Elems(Idle(dent, vis))), Idle(dent, vis));
    }

    /** shrink_dcache_parent: below `parent` exactly the pinned dentries are left. A parent that is not
        pinned may go on the way; the source would then walk a freed dentry, and `lost` says so. */
    method ShrinkDcacheParent(parent: nat, deletes: set<nat>) returns (lost: bool)
      requires Valid() && parent in dent
      modifies this
      ensures Valid() && Shrunk(old(V()), V()) && (lost <==> parent !in dent)
      ensures lost ==> !Pinned(old(V()), parent)
      ensures !lost ==> forall x :: x in old(dent) && x != parent && Under(Tree(old(V())), parent, x) ==>
        (x in dent <==> Pinned(old(V()), x))
    {
      hide Books, Field, Forest, Shrunk, Below, Idle, Minus, Under, Pinned;
      ghost var v0 := V();
      BooksFacts(v0, None, None);
      var found := SelectParent(parent);
      ShrunkSame(v0, v0, V());
      while found != 0
        invariant Books(v0, None, None) && Valid() && Shrunk(v0, V()) && parent in dent && Forest(Tree(V()))
        invariant found == |Idle(dent, Below(Tree(V()), parent))| && (found > 0 ==> unused != [])
        decreases |dent|
      {
        ghost var v := V();
        ghost var pruned, k := PruneDcache(found, deletes);
        ShrunkTrans(v0, v, V());
        BooksFacts(V(), None, None);
        if parent !in dent {
          PinnedIsKept(v0, V(), parent);
          return true;
        }
        ghost var w := V();
        found := SelectParent(parent);
        ShrunkSame(v0, w, V());
      }
      NothingIdle(V(), parent);
      forall x | x in old(dent) && x != parent && Under(Tree(v0), parent, x)
        ensures x in dent <==> Pinned(v0, x)
      {
        PinnedStay(v0, V(), parent, x);
      }
      lost := false;
    }

    /** have_submounts: is `parent` or a dentry below it a mount point? */
    method HaveSubmounts(parent: nat, mountpoints: set<nat>) returns (found: bool)
      requires Valid() && parent in dent
      ensures found <==> exists x :: x in Pre(Tree(V()), parent) && x in mountpoints
    {
      hide Books, Field, Forest, Walking, Left, Below, DepthOf, Pre;
      ghost var a := Tree(V());
      ghost var vis := [];
      BooksFacts(V(), None, None);
      BelowOnce(a, parent);
      WalkingStart(a, parent);
      if parent in mountpoints {
        assert parent in Pre(a, parent);
        return true;
      }
      var p: nat, i: nat := parent, 0;
      while true
        invariant Forest(a) && p in dent && i <= |dent[p].subdirs| && Walking(a, parent, p, i, vis)
        invariant forall x :: x in vis ==> x !in mountpoints
        decreases Left(a, parent, p, i), DepthOf(a, p)
      {
        if i < |dent[p].subdirs| {
          var d := dent[p].subdirs[i];
          WalkingVisit(a, parent, p, i, vis);
          i := i + 1;
          if d in mountpoints {
            WalkingSeen(a, parent, d, 0, vis + [d]);
            assert d in vis + [d];
            return true;
          }
          vis := vis + [d];
          if dent[d].subdirs != [] { p, i := d, 0; }
        } else if p != parent {
          WalkingUp(a, parent, p, i, vis);
          i := IndexOf(dent[dent[p].parent].subdirs, p) + 1;
          p := dent[p].parent;
        } else {
          WalkingEnd(a, parent, i, vis);
          return false;
        }
      }
    }

    /** d_alloc and d_alloc_root. */
    method DAlloc(q: nat, p: Option<nat>)
      requires Valid() && q !in dent && (p.Some? ==> p.value in dent && dent[p.value].count > 0)
      modifies this
      ensures p.Some? ==> p.value in old(depth)
      ensures Valid() && V() == Grown(old(V()), q, p)
      ensures unused == old(unused) && dent.Keys == old(dent).Keys + {q} && handles == old(handles)[q := 1]
      ensures dent[q].count == 1 && dent[q].subdirs == [] && dent[q].parent == (if p.Some? then p.value else q)
      ensures !dent[q].hashed && !dent[q].referenced
      ensures p.Some? ==> dent[p.value].subdirs == [q] + old(dent)[p.value].subdirs
      ensures p.Some? ==> dent[p.value].count == old(dent)[p.value].count + 1
      ensures forall x :: x in old(dent) && p != Some(x) ==> dent[x] == old(dent)[x]
    {
      hide Books, Links;
      GrownBooks(V(), q, p);
      ghost var g := Grown(V(), q, p);
      dent := GrownDent(dent, q, p);
      handles, depth, height := g.handles, g.depth, g.height;
    }

    /** dget_locked, and a successful d_lookup, which also marks the dentry as used. */
    method DgetLocked(d: nat, lookup: bool)
      requires Valid() && d in dent
      modifies this
      ensures Valid() && handles == old(handles)[d := old(handles[d]) + 1] && unused == InUseAgain(old(unused), d)
      ensures dent ==
        old(dent)[d := old(dent[d]).(count := old(dent[d].count) + 1, referenced := lookup || old(dent[d].referenced))]
    {
      hide Books, Links, Without;
      ghost var v := V();
      HeldBooks(v, d, dent[d].(count := dent[d].count + 1, referenced := lookup || dent[d].referenced));
      dent := dent[d := dent[d].(count := dent[d].count + 1)];
      if dent[d].count == 1 {
        nrUnused := nrUnused - 1;
        WithoutSize(unused, d);
        unused := Without(unused, d);
      }
      if lookup { dent := dent[d := dent[d].(referenced := true)]; }
      handles := handles[d := handles[d] + 1];
      UnusedCount(v);
      ghost var u, n := InUseAgain(v.unused, d),
        v.dent[d].(count := v.dent[d].count + 1, referenced := lookup || v.dent[d].referenced);
      assert dent == v.dent[d := n];
      assert V() == Changed(v, d, n, v.handles[d] + 1).(unused := u, nrUnused := |u|);
    }

    /** d_rehash and d_drop: a user puts a dentry it holds under its name, or takes it away. */
    method SetHashed(d: nat, hashed: bool)
      requires Valid() && d in dent && handles[d] > 0
      modifies this`dent
      ensures Valid() && dent == old(dent)[d := old(dent[d]).(hashed := hashed)]
    {
      hide Forest, Links;
      ghost var v := V();
      dent := dent[d := dent[d].(hashed := hashed)];
      ChangedBooks(v, None, None, d, dent[d], handles[d], None, None);
      assert handles[d := handles[d]] == handles;
    }
  }
}
