/** Lists of numbers, optional values and the lesser of two numbers. */
module Lists {

  datatype Option<T> = None | Some(value: T)

  function Least(a: nat, b: nat): (r: nat)
    ensures r <= a && r <= b && (r == a || r == b)
  {
    if a < b then a else b
  }

  ghost predicate NoDuplicates(s: seq<nat>) { forall i, j :: 0 <= i < j < |s| ==> s[i] != s[j] }

  function IndexOf(s: seq<nat>, x: nat): (i: nat)
    requires x in s
    ensures i < |s| && s[i] == x
  {
    if s[0] == x then 0 else IndexOf(s[1..], x) + 1
  }

  function Without(s: seq<nat>, x: nat): seq<nat>
    requires x in s
  {
    s[..IndexOf(s, x)] + s[IndexOf(s, x) + 1..]
  }

  lemma {:induction false} WithoutFacts(s: seq<nat>, x: nat)
    requires x in s && NoDuplicates(s)
    ensures NoDuplicates(Without(s, x)) && forall y :: y in Without(s, x) <==> y in s && y != x
  {
    var i := IndexOf(s, x);
    var w := Without(s, x);
    forall j | 0 <= j < |w| ensures w[j] == s[if j < i then j else j + 1] {}
    forall y | y in s && y != x ensures y in w {
      var j :| 0 <= j < |s| && s[j] == y;
      assert w[if j < i then j else j - 1] == y;
    }
  }

  lemma {:induction false} WithoutSize(u: seq<nat>, x: nat)
    requires x in u
    ensures |Without(u, x)| == |u| - 1
  {}

  lemma {:induction false} ConcatOnce(s: seq<nat>, t: seq<nat>)
    requires NoDuplicates(s) && NoDuplicates(t) && forall x :: x in s ==> x !in t
    ensures NoDuplicates(s + t)
  {
    forall i, j | 0 <= i < j < |s + t| ensures (s + t)[i] != (s + t)[j] {
      if i < |s| <= j { assert s[i] in s && t[j - |s|] in t; }
    }
  }

  /** A list without duplicates, cut at one element. */
  lemma {:induction false} CutAt(s: seq<nat>, k: nat)
    requires NoDuplicates(s) && k < |s|
    ensures NoDuplicates(s[..k]) && NoDuplicates(s[k + 1..]) && s[k] !in s[..k] && s[k] !in s[k + 1..]
    ensures forall x :: x in s[..k] ==> x !in s[k + 1..]
    ensures forall x :: x in s <==> x in s[..k] || x == s[k] || x in s[k + 1..]
  {
    var a, b := s[..k], s[k + 1..];
    assert s == a + ([s[k]] + b);
    forall x | x in a ensures x !in b {
      var i :| 0 <= i < |a| && a[i] == x;
      assert s[i] == x && forall j :: 0 <= j < |b| ==> b[j] == s[k + 1 + j];
    }
  }

  function Elems(s: seq<nat>): (r: set<nat>)
    ensures forall x :: x in r <==> x in s
  {
    set x | x in s
  }

  /** A list without the elements of a set. */
  function Minus(s: seq<nat>, dead: set<nat>): seq<nat> {
    if s == [] then [] else (if s[0] in dead then [] else [s[0]]) + Minus(s[1..], dead)
  }

  lemma {:induction false} MinusNothing(s: seq<nat>, dead: set<nat>)
    requires forall x :: x in s ==> x !in dead
    ensures Minus(s, dead) == s
  {
    if s != [] {
      MinusNothing(s[1..], dead);
      assert s[0] in s;
    }
  }

  lemma {:induction false} MinusAll(s: seq<nat>, dead: set<nat>)
    requires forall x :: x in s ==> x in dead
    ensures Minus(s, dead) == []
  {
    if s != [] {
      assert s[0] in s;
      MinusAll(s[1..], dead);
    }
  }

  lemma {:induction false} MinusSame(s: seq<nat>, dead: set<nat>, x: nat)
    requires x !in s
    ensures Minus(s, dead + {x}) == Minus(s, dead)
  {
    if s != [] { MinusSame(s[1..], dead, x); }
  }

  lemma {:induction false} MinusMember(s: seq<nat>, dead: set<nat>, x: nat)
    ensures x in Minus(s, dead) <==> x in s && x !in dead
  {
    if s != [] { MinusMember(s[1..], dead, x); }
  }

  lemma {:induction false} MinusCons(s: seq<nat>, dead: set<nat>)
    requires s != []
    ensures Minus(s, dead) == if s[0] in dead then Minus(s[1..], dead) else [s[0]] + Minus(s[1..], dead)
  {}

  lemma {:induction false} WithoutCons(h: nat, t: seq<nat>, x: nat)
    requires h == x || x in t
    ensures x in [h] + t && Without([h] + t, x) == if h == x then t else [h] + Without(t, x)
  {
    assert ([h] + t)[1..] == t;
  }

  lemma {:induction false} MinusOne(s: seq<nat>, dead: set<nat>, x: nat)
    requires NoDuplicates(s) && x in s && x !in dead
    ensures x in Minus(s, dead) && Without(Minus(s, dead), x) == Minus(s, dead + {x})
  {
    hide Without, Minus;
    MinusMember(s, dead, x);
    MinusCons(s, dead);
    MinusCons(s, dead + {x});
    var t := Minus(s[1..], dead);
    if s[0] == x {
      MinusSame(s[1..], dead, x);
      WithoutCons(x, t, x);
    } else {
      MinusOne(s[1..], dead, x);
      if s[0] !in dead { WithoutCons(s[0], t, x); }
    }
  }
}
