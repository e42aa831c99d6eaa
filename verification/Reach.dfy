/** Reachability along dependency edges, ancestor sets, acyclicity, extremal elements. */
module Reach {
  import opened Base

  /** `child -> dependencies`; an id without an entry is a ghost and has no dependencies. */
  type Edges = map<Id, set<Id>>

  function Deps(e: Edges, x: Id): set<Id> {
    if x in e then e[x] else {}
  }

  ghost predicate IsPath(e: Edges, p: seq<Id>) {
    && |p| > 0
    && forall i :: 0 <= i < |p| - 1 ==> p[i + 1] in Deps(e, p[i])
  }

  /** `b` is `a` or a transitive dependency of `a`. */
  ghost predicate Reaches(e: Edges, a: Id, b: Id) {
    exists p :: IsPath(e, p) && p[0] == a && p[|p| - 1] == b
  }

  /** `b` is a transitive dependency of `a`, at least one edge away. */
  ghost predicate Above(e: Edges, a: Id, b: Id) {
    exists d :: d in Deps(e, a) && Reaches(e, d, b)
  }

  ghost predicate Acyclic(e: Edges) {
    forall x :: !Above(e, x, x)
  }

  ghost predicate Closed(e: Edges, s: set<Id>) {
    forall x :: x in s ==> Deps(e, x) <= s
  }

  ghost predicate Related(e: Edges, a: Id, b: Id) {
    Above(e, a, b) || Above(e, b, a)
  }

  /** Every id named in the edges or the heads. */
  ghost function Universe(e: Edges, heads: set<Id>): set<Id> {
    heads + e.Keys + (set k, d | k in e && d in e[k] :: d)
  }

  /** The heads and everything they depend on. */
  ghost function Anc(e: Edges, heads: set<Id>): set<Id> {
    set x | x in Universe(e, heads) && exists h :: h in heads && Reaches(e, h, x)
  }

  lemma ReachesSelf(e: Edges, a: Id)
    ensures Reaches(e, a, a)
  {
    assert IsPath(e, [a]);
  }

  lemma ReachesStep(e: Edges, a: Id, d: Id, b: Id)
    requires d in Deps(e, a) && Reaches(e, d, b)
    ensures Reaches(e, a, b)
  {
    var p: seq<Id> :| IsPath(e, p) && p[0] == d && p[|p| - 1] == b;
    var q := [a] + p;
    assert forall i :: 0 < i < |q| ==> q[i] == p[i - 1];
    assert IsPath(e, q);
  }

  lemma ReachesLast(e: Edges, a: Id, b: Id, d: Id)
    requires Reaches(e, a, b) && d in Deps(e, b)
    ensures Reaches(e, a, d)
  {
    var p: seq<Id> :| IsPath(e, p) && p[0] == a && p[|p| - 1] == b;
    assert IsPath(e, p + [d]);
  }

  lemma ReachesTrans(e: Edges, a: Id, b: Id, c: Id)
    requires Reaches(e, a, b) && Reaches(e, b, c)
    ensures Reaches(e, a, c)
  {
    var p: seq<Id> :| IsPath(e, p) && p[0] == a && p[|p| - 1] == b;
    var q: seq<Id> :| IsPath(e, q) && q[0] == b && q[|q| - 1] == c;
    var r := p + q[1..];
    assert forall i :: 0 <= i < |p| ==> r[i] == p[i];
    assert forall i :: |p| <= i < |r| ==> r[i] == q[i - |p| + 1];
    assert IsPath(e, r);
  }

  lemma ReachesSplit(e: Edges, a: Id, b: Id)
    requires Reaches(e, a, b)
    ensures a == b || Above(e, a, b)
  {
    var p: seq<Id> :| IsPath(e, p) && p[0] == a && p[|p| - 1] == b;
    if |p| > 1 {
      var q := p[1..];
      assert forall i :: 0 <= i < |q| ==> q[i] == p[i + 1];
      assert IsPath(e, q);
      assert p[1] in Deps(e, p[0]);
      assert Reaches(e, p[1], b);
    }
  }

  lemma AboveReaches(e: Edges, a: Id, b: Id)
    requires Above(e, a, b)
    ensures Reaches(e, a, b)
  {
    var d :| d in Deps(e, a) && Reaches(e, d, b);
    ReachesStep(e, a, d, b);
  }

  lemma AboveDep(e: Edges, a: Id, d: Id)
    requires d in Deps(e, a)
    ensures Above(e, a, d)
  {
    ReachesSelf(e, d);
  }

  lemma AboveTrans(e: Edges, a: Id, b: Id, c: Id)
    requires Above(e, a, b) && Above(e, b, c)
    ensures Above(e, a, c)
  {
    AboveReaches(e, b, c);
    var d :| d in Deps(e, a) && Reaches(e, d, b);
    ReachesTrans(e, d, b, c);
  }

  lemma PathStaysClosed(e: Edges, s: set<Id>, p: seq<Id>)
    requires Closed(e, s) && IsPath(e, p) && p[0] in s
    ensures Elems(p) <= s
  {
    for i := 1 to |p|
      invariant forall j :: 0 <= j < i ==> p[j] in s
    {
      assert p[i - 1] in s && p[i - 1 + 1] in Deps(e, p[i - 1]);
    }
  }

  lemma ReachesStaysClosed(e: Edges, s: set<Id>, a: Id, b: Id)
    requires Closed(e, s) && a in s && Reaches(e, a, b)
    ensures b in s
  {
    var p: seq<Id> :| IsPath(e, p) && p[0] == a && p[|p| - 1] == b;
    PathStaysClosed(e, s, p);
    assert p[|p| - 1] in p;
  }

  // ---- ancestor sets -------------------------------------------------------

  /** `Anc` is what its comprehension says without the finite bound. */
  lemma AncIff(e: Edges, heads: set<Id>, x: Id)
    ensures x in Anc(e, heads) <==> exists h :: h in heads && Reaches(e, h, x)
  {
    if h :| h in heads && Reaches(e, h, x) {
      var u := Universe(e, heads);
      assert Closed(e, u) by {
        forall y, d | y in u && d in Deps(e, y) ensures d in u {
          assert y in e && d in e[y];
        }
      }
      ReachesStaysClosed(e, u, h, x);
    }
  }

  /** `Anc` contains the heads and is closed under dependencies ... */
  lemma AncIsClosed(e: Edges, heads: set<Id>)
    ensures heads <= Anc(e, heads) && Closed(e, Anc(e, heads))
  {
    forall h | h in heads ensures h in Anc(e, heads) {
      ReachesSelf(e, h);
      AncIff(e, heads, h);
    }
    forall x, d | x in Anc(e, heads) && d in Deps(e, x) ensures d in Anc(e, heads) {
      AncIff(e, heads, x);
      var h :| h in heads && Reaches(e, h, x);
      ReachesLast(e, h, x, d);
      AncIff(e, heads, d);
    }
  }

  /** ... and is the least such set. */
  lemma AncIsLeast(e: Edges, heads: set<Id>, s: set<Id>)
    requires heads <= s && Closed(e, s)
    ensures Anc(e, heads) <= s
  {
    forall x | x in Anc(e, heads) ensures x in s {
      var h :| h in heads && Reaches(e, h, x);
      ReachesStaysClosed(e, s, h, x);
    }
  }

  lemma AncUnion(e: Edges, a: set<Id>, b: set<Id>)
    ensures Anc(e, a + b) == Anc(e, a) + Anc(e, b)
  {
    forall x ensures x in Anc(e, a + b) <==> x in Anc(e, a) + Anc(e, b) {
      AncIff(e, a + b, x);
      AncIff(e, a, x);
      AncIff(e, b, x);
      if x in Anc(e, a + b) {
        var h :| h in a + b && Reaches(e, h, x);
      }
    }
  }

  lemma AncOfOne(e: Edges, h: Id, x: Id)
    ensures x in Anc(e, {h}) <==> Reaches(e, h, x)
  {
    AncIff(e, {h}, x);
    if Reaches(e, h, x) {
      assert h in {h};
    }
  }

  /** Anything between a head set and an ancestor of it stays inside the ancestor set. */
  lemma AncReaches(e: Edges, heads: set<Id>, x: Id, y: Id)
    requires x in Anc(e, heads) && Reaches(e, x, y)
    ensures y in Anc(e, heads)
  {
    AncIsClosed(e, heads);
    ReachesStaysClosed(e, Anc(e, heads), x, y);
  }

  // ---- walks that stop at known ids ----------------------------------------

  /** The edges without those of the known ids, where a walk stops. */
  ghost function Cut(e: Edges, known: set<Id>): Edges {
    map x | x in e && x !in known :: e[x]
  }

  /** The ids a walk from the heads finds that stops at known ids, which it does not list. */
  ghost function Walked(e: Edges, known: set<Id>, heads: set<Id>): set<Id> {
    Anc(Cut(e, known), heads) - known
  }

  lemma CutDeps(e: Edges, known: set<Id>, x: Id)
    ensures Deps(Cut(e, known), x) == if x in known then {} else Deps(e, x)
  {}

  /** Cutting edges loses ancestors only behind the known ids. */
  lemma CutReaches(e: Edges, known: set<Id>, heads: set<Id>)
    ensures Anc(Cut(e, known), heads) <= Anc(e, heads)
  {
    AncIsClosed(e, heads);
    forall x | x in Anc(e, heads) ensures Deps(Cut(e, known), x) <= Anc(e, heads) {
      CutDeps(e, known, x);
    }
    AncIsLeast(Cut(e, known), heads, Anc(e, heads));
  }

  /** When the known ids are closed the walk finds every ancestor that is not known. */
  lemma WalkedIsAll(e: Edges, known: set<Id>, heads: set<Id>)
    requires Closed(e, known)
    ensures Walked(e, known, heads) == Anc(e, heads) - known
  {
    var found := Anc(Cut(e, known), heads);
    CutReaches(e, known, heads);
    AncIsClosed(Cut(e, known), heads);
    forall x | x in found + known ensures Deps(e, x) <= found + known {
      CutDeps(e, known, x);
      if x !in known {
        assert Deps(Cut(e, known), x) <= found;
      }
    }
    AncIsLeast(e, heads, found + known);
  }

  /** What the known ids depend on without its being known. */
  ghost function Owed(e: Edges, known: set<Id>): set<Id> {
    set x, d | x in known && x in e && d in e[x] && d !in known :: d
  }

  /** `f` is the part of `e` between the ids `s`. */
  ghost predicate PartOn(f: Edges, e: Edges, s: set<Id>) {
    f.Keys == s && forall x :: x in s ==> x in e && f[x] == e[x]
  }

  /**
   When a second walk repairs a first one that was broken off. The first started from closed ids
   `known0` and got to `known1`; the second stops at `known1`. The heads are then complete exactly when
   the second walk still finds everything that `known1` depends on.
   */
  lemma SecondWalkIff(e: Edges, f: Edges, known0: set<Id>, known1: set<Id>, heads: set<Id>)
    requires Closed(e, known0) && known0 <= known1 <= known0 + Walked(e, known0, heads)
    requires PartOn(f, e, known1 + Walked(e, known1, heads))
    ensures Anc(f, heads) <= f.Keys <==> Owed(e, known1) <= Walked(e, known1, heads)
  {
    if Owed(e, known1) <= Walked(e, known1, heads) {
      SecondWalkCloses(e, f, known1, heads);
      AncIsLeast(f, heads, f.Keys);
    }
    if Anc(f, heads) <= f.Keys {
      FirstWalkInside(e, f, known0, known1, heads);
      AncIsClosed(f, heads);
      forall x, d | x in known1 && x in e && d in e[x] && d !in known1 ensures d in f.Keys {
        assert d in Deps(e, x);
        assert x in known0 || d in Deps(f, x);
      }
    }
  }

  lemma SecondWalkCloses(e: Edges, f: Edges, known1: set<Id>, heads: set<Id>)
    requires PartOn(f, e, known1 + Walked(e, known1, heads)) && Owed(e, known1) <= Walked(e, known1, heads)
    ensures Closed(f, f.Keys) && heads <= f.Keys
  {
    AncIsClosed(Cut(e, known1), heads);
    forall x | x in f.Keys ensures Deps(f, x) <= f.Keys {
      if x in known1 {
        assert forall d :: d in e[x] && d !in known1 ==> d in Owed(e, known1);
      } else {
        CutDeps(e, known1, x);
        assert Deps(Cut(e, known1), x) <= Anc(Cut(e, known1), heads);
      }
    }
  }

  /** All the first walk found lies behind the heads on the receiving side, when that is complete. */
  lemma FirstWalkInside(e: Edges, f: Edges, known0: set<Id>, known1: set<Id>, heads: set<Id>)
    requires known0 <= known1 <= known0 + Walked(e, known0, heads)
    requires PartOn(f, e, known1 + Walked(e, known1, heads)) && Anc(f, heads) <= f.Keys
    ensures known1 <= known0 + Anc(f, heads)
  {
    AncIsClosed(f, heads);
    forall x | x in Anc(f, heads) ensures Deps(Cut(e, known0), x) <= Anc(f, heads) {
      CutDeps(e, known0, x);
      assert Deps(f, x) == Deps(e, x);
    }
    AncIsLeast(Cut(e, known0), heads, Anc(f, heads));
  }

  // ---- two graphs that agree on a closed set -------------------------------

  ghost predicate Agree(e: Edges, f: Edges, s: set<Id>) {
    forall x :: x in s ==> Deps(e, x) == Deps(f, x)
  }

  lemma ClosedAgrees(e: Edges, f: Edges, s: set<Id>)
    requires Closed(e, s) && Agree(e, f, s)
    ensures Closed(f, s) && Agree(f, e, s)
  {
    forall x | x in s ensures Deps(f, x) <= s {
      assert Deps(e, x) == Deps(f, x);
    }
  }

  lemma ReachesAgrees(e: Edges, f: Edges, s: set<Id>, a: Id, b: Id)
    requires Closed(e, s) && Agree(e, f, s) && a in s && Reaches(e, a, b)
    ensures Reaches(f, a, b)
  {
    var p: seq<Id> :| IsPath(e, p) && p[0] == a && p[|p| - 1] == b;
    PathStaysClosed(e, s, p);
    forall i | 0 <= i < |p| - 1 ensures p[i + 1] in Deps(f, p[i]) {
      assert p[i] in Elems(p);
    }
    assert IsPath(f, p);
  }

  lemma AboveAgrees(e: Edges, f: Edges, s: set<Id>, a: Id, b: Id)
    requires Closed(e, s) && Agree(e, f, s) && a in s
    ensures Above(e, a, b) <==> Above(f, a, b)
  {
    ClosedAgrees(e, f, s);
    if Above(e, a, b) {
      var d :| d in Deps(e, a) && Reaches(e, d, b);
      ReachesAgrees(e, f, s, d, b);
    }
    if Above(f, a, b) {
      var d :| d in Deps(f, a) && Reaches(f, d, b);
      ReachesAgrees(f, e, s, d, b);
    }
  }

  lemma AncAgrees(e: Edges, f: Edges, s: set<Id>, heads: set<Id>)
    requires Closed(e, s) && Agree(e, f, s) && heads <= s
    ensures Anc(e, heads) == Anc(f, heads)
  {
    ClosedAgrees(e, f, s);
    forall x ensures x in Anc(e, heads) <==> x in Anc(f, heads) {
      AncIff(e, heads, x);
      AncIff(f, heads, x);
      if h :| h in heads && Reaches(e, h, x) {
        ReachesAgrees(e, f, s, h, x);
      }
      if h :| h in heads && Reaches(f, h, x) {
        ReachesAgrees(f, e, s, h, x);
      }
    }
  }

  // ---- extremal elements of finite sets ------------------------------------

  /** Below any member of a finite set of an acyclic graph there is a member with nothing below it. */
  lemma {:induction false} LowestBelow(e: Edges, s: set<Id>, x: Id) returns (m: Id)
    requires Acyclic(e) && x in s
    ensures m in s && (m == x || Above(e, x, m))
    ensures forall y :: y in s ==> !Above(e, m, y)
    decreases set y | y in s && Above(e, x, y)
  {
    var below := set y | y in s && Above(e, x, y);
    if y :| y in below {
      forall z | z in s && Above(e, y, z) ensures z in below {
        AboveTrans(e, x, y, z);
      }
      assert y !in (set z | z in s && Above(e, y, z));
      m := LowestBelow(e, s, y);
      if m != y {
        AboveTrans(e, x, y, m);
      }
    } else {
      m := x;
      forall y | y in s ensures !Above(e, m, y) {
        assert y !in below;
      }
    }
  }

  /** Above any member of a finite set of an acyclic graph there is a member with nothing above it. */
  lemma {:induction false} HighestAbove(e: Edges, s: set<Id>, x: Id) returns (m: Id)
    requires Acyclic(e) && x in s
    ensures m in s && (m == x || Above(e, m, x))
    ensures forall y :: y in s ==> !Above(e, y, m)
    decreases set y | y in s && Above(e, y, x)
  {
    var over := set y | y in s && Above(e, y, x);
    if y :| y in over {
      forall z | z in s && Above(e, z, y) ensures z in over {
        AboveTrans(e, z, y, x);
      }
      assert y !in (set z | z in s && Above(e, z, y));
      m := HighestAbove(e, s, y);
      if m != y {
        AboveTrans(e, m, y, x);
      }
    } else {
      m := x;
      forall y | y in s ensures !Above(e, y, m) {
        assert y !in over;
      }
    }
  }
}
