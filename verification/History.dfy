/**
 Histories: sets of changes closed under dependencies, replayed in a linear order of their DAG.
 The results of this module are about every such set and every such order.
 */
module History {
  import opened Base
  import opened Reach
  import opened Kahn
  import opened Cells
  import opened Algebra

  /** The content-addressed store of changes. */
  type Store = map<Id, Change>

  function EdgesOf(store: Store): Edges {
    map i | i in store :: store[i].deps
  }

  ghost predicate WellFormed(store: Store) {
    && (forall i :: i in store ==> store[i].id == i)
    && Acyclic(EdgesOf(store))
  }

  /** All of `s` is in the store, and with each change its dependencies are in `s`. */
  ghost predicate Complete(store: Store, s: set<Id>) {
    s <= store.Keys && Closed(EdgesOf(store), s)
  }

  /** Causally unrelated members commute. */
  ghost predicate ConflictFree(store: Store, s: set<Id>)
    requires s <= store.Keys
  {
    forall a, b :: a in s && b in s && a != b && !Related(EdgesOf(store), a, b) ==> Commutes(store[a], store[b])
  }

  // ---- replaying an order --------------------------------------------------

  /** The writes of the listed changes, one after the other. */
  ghost function Flat<V>(f: Id -> seq<Write<V>>, order: seq<Id>): seq<Write<V>> {
    if order == [] then [] else Flat(f, order[..|order| - 1]) + f(order[|order| - 1])
  }

  ghost function WritesIn(store: Store, ignore: Ignore): Id -> seq<Write<Bytes>> {
    (i: Id) => if i in store then Writes(store[i], ignore) else []
  }

  ghost function MarksIn(store: Store, ignore: Ignore): Id -> seq<Write<Id>> {
    (i: Id) => if i in store then Marks(store[i], ignore) else []
  }

  ghost function Replay(store: Store, order: seq<Id>, ignore: Ignore): Option<State> {
    Run(map[], Flat(WritesIn(store, ignore), order))
  }

  ghost function ReplayBlame(store: Store, order: seq<Id>, ignore: Ignore): Option<Blame> {
    Run(map[], Flat(MarksIn(store, ignore), order))
  }

  /** The state a set of changes materialises to, in the order Kahn's algorithm picks. */
  ghost function Materialized(store: Store, s: set<Id>, ignore: Ignore): Option<State> {
    Replay(store, KahnOrder(EdgesOf(store), s), ignore)
  }

  // ---- what an order does to one key ---------------------------------------

  /** The listed ids that are in `p`. */
  ghost function Keep(order: seq<Id>, p: set<Id>): seq<Id> {
    if order == [] then [] else
      var last := order[|order| - 1];
      Keep(order[..|order| - 1], p) + (if last in p then [last] else [])
  }

  /** Each id depends on all earlier ones. */
  ghost predicate Chain(e: Edges, c: seq<Id>) {
    forall i, j :: 0 <= i < j < |c| ==> Above(e, c[j], c[i])
  }

  lemma {:induction false} KeepElems(order: seq<Id>, p: set<Id>)
    ensures Elems(Keep(order, p)) == Elems(order) * p
  {
    if order != [] {
      var init, last := order[..|order| - 1], order[|order| - 1];
      KeepElems(init, p);
      assert order == init + [last];
      assert forall x :: x in order <==> x in init || x == last;
      assert forall x :: x in Keep(order, p) <==> x in Keep(init, p) || (x == last && last in p);
      assert forall x :: x in Keep(init, p) <==> x in Elems(init) * p;
    }
  }

  lemma {:induction false} KeepChain(e: Edges, r: set<Id>, order: seq<Id>, p: set<Id>, n: nat)
    requires Acyclic(e) && Closed(e, r) && Linear(e, r, order) && n <= |order|
    requires forall a, b :: a in p && b in p && a != b ==> Related(e, a, b)
    ensures Chain(e, Keep(order[..n], p))
  {
    if n > 0 {
      var init, x := order[..n - 1], order[n - 1];
      assert order[..n][..n - 1] == init;
      KeepChain(e, r, order, p, n - 1);
      KeepElems(init, p);
      if x in p {
        var kept := Keep(init, p);
        forall i | 0 <= i < |kept| ensures Above(e, x, kept[i]) {
          assert kept[i] in Elems(kept);
          var j :| 0 <= j < n - 1 && order[j] == kept[i];
          if Above(e, kept[i], x) {
            BelowIsEarlier(e, r, order, j, x);
          }
        }
      }
    }
  }

  lemma {:induction false} ChainUnique(e: Edges, a: seq<Id>, b: seq<Id>)
    requires Acyclic(e) && Chain(e, a) && Chain(e, b) && Elems(a) == Elems(b)
    ensures a == b
  {
    assert forall i :: 0 <= i < |a| ==> a[i] in Elems(a);
    assert forall i :: 0 <= i < |b| ==> b[i] in Elems(b);
    if a != [] && b != [] {
      assert a[0] in b && b[0] in a;
      if a[0] != b[0] {
        var i :| 0 <= i < |a| && a[i] == b[0];
        var j :| 0 <= j < |b| && b[j] == a[0];
        AboveTrans(e, a[0], b[0], a[0]);
      }
      forall x ensures x in Elems(a[1..]) <==> x in Elems(b[1..]) {
        assert x in Elems(a[1..]) ==> x in a && x != a[0];
        assert x in Elems(b[1..]) ==> x in b && x != b[0];
      }
      ChainUnique(e, a[1..], b[1..]);
    }
  }

  /** Dropping the ids that do not write a key leaves that key's writes unchanged. */
  lemma {:induction false} KeepProj<V>(f: Id -> seq<Write<V>>, order: seq<Id>, p: set<Id>, k: NodePath)
    requires forall x :: x in order && x !in p ==> Proj(f(x), k) == []
    ensures Proj(Flat(f, order), k) == Proj(Flat(f, Keep(order, p)), k)
  {
    if order != [] {
      var init, last := order[..|order| - 1], order[|order| - 1];
      KeepProj(f, init, p, k);
      ProjConcat(Flat(f, init), f(last), k);
      var kept := Keep(order, p);
      if last in p {
        assert kept[..|kept| - 1] == Keep(init, p);
        ProjConcat(Flat(f, Keep(init, p)), f(last), k);
      } else {
        assert kept == Keep(init, p);
      }
    }
  }

  lemma {:induction false} FlatNoFail<V>(f: Id -> seq<Write<V>>, order: seq<Id>)
    ensures NoFail(Flat(f, order)) <==> forall x :: x in order ==> NoFail(f(x))
  {
    if order != [] {
      var init, last := order[..|order| - 1], order[|order| - 1];
      FlatNoFail(f, init);
      NoFailConcat(Flat(f, init), f(last));
      assert order == init + [last];
      assert forall x :: x in order <==> x in init || x == last;
    }
  }

  /** Any two members of `s` that write `k` are causally related. */
  ghost predicate Serial<V>(e: Edges, s: set<Id>, f: Id -> seq<Write<V>>, k: NodePath) {
    forall a, b :: a in s && b in s && a != b && Proj(f(a), k) != [] && Proj(f(b), k) != [] ==> Related(e, a, b)
  }

  ghost function Writers<V>(s: set<Id>, f: Id -> seq<Write<V>>, k: NodePath): set<Id> {
    set x | x in s && Proj(f(x), k) != []
  }

  /** Whatever linear order is chosen, a serial key sees the same writes in the same order. */
  lemma SameProj<V>(e: Edges, s: set<Id>, f: Id -> seq<Write<V>>, a: seq<Id>, b: seq<Id>, k: NodePath)
    requires Acyclic(e) && Closed(e, s) && Linear(e, s, a) && Linear(e, s, b) && Serial(e, s, f, k)
    ensures Proj(Flat(f, a), k) == Proj(Flat(f, b), k)
  {
    var p := Writers(s, f, k);
    KeepProj(f, a, p, k);
    KeepProj(f, b, p, k);
    KeepElems(a, p);
    KeepElems(b, p);
    assert a[..|a|] == a && b[..|b|] == b;
    KeepChain(e, s, a, p, |a|);
    KeepChain(e, s, b, p, |b|);
    ChainUnique(e, Keep(a, p), Keep(b, p));
  }

  lemma ConflictFreeSerial(store: Store, s: set<Id>, ignore: Ignore, k: NodePath)
    requires Complete(store, s) && ConflictFree(store, s)
    ensures Serial(EdgesOf(store), s, WritesIn(store, ignore), k)
    ensures Serial(EdgesOf(store), s, MarksIn(store, ignore), k)
  {
    forall a, b | a in s && b in s && a != b && !Related(EdgesOf(store), a, b)
      ensures Proj(Writes(store[a], ignore), k) == [] || Proj(Writes(store[b], ignore), k) == []
      ensures Proj(Marks(store[a], ignore), k) == [] || Proj(Marks(store[b], ignore), k) == []
    {
      assert Commutes(store[a], store[b]);
      DisjointKeys(store[a], Writes(store[a], ignore), store[b], Writes(store[b], ignore), k);
      DisjointKeys(store[a], Marks(store[a], ignore), store[b], Marks(store[b], ignore), k);
    }
  }

  // ---- confluence ----------------------------------------------------------

  lemma SameRuns<V(!new)>(e: Edges, s: set<Id>, f: Id -> seq<Write<V>>, a: seq<Id>, b: seq<Id>, m: map<NodePath, V>)
    requires Acyclic(e) && Closed(e, s) && Linear(e, s, a) && Linear(e, s, b)
    requires forall k :: Serial(e, s, f, k)
    ensures Run(m, Flat(f, a)) == Run(m, Flat(f, b))
  {
    FlatNoFail(f, a);
    FlatNoFail(f, b);
    assert forall x :: x in a <==> x in Elems(b);
    forall k ensures Proj(Flat(f, a), k) == Proj(Flat(f, b), k) {
      SameProj(e, s, f, a, b, k);
    }
    SameCells(m, Flat(f, a), Flat(f, b));
  }

  /** Every two linear orders of a conflict-free history replay to the same state or both fail. */
  lemma Confluence(store: Store, s: set<Id>, a: seq<Id>, b: seq<Id>, ignore: Ignore)
    requires WellFormed(store) && Complete(store, s) && ConflictFree(store, s)
    requires Linear(EdgesOf(store), s, a) && Linear(EdgesOf(store), s, b)
    ensures Replay(store, a, ignore) == Replay(store, b, ignore)
    ensures ReplayBlame(store, a, ignore) == ReplayBlame(store, b, ignore)
  {
    forall k {
      ConflictFreeSerial(store, s, ignore, k);
    }
    SameRuns(EdgesOf(store), s, WritesIn(store, ignore), a, b, map[]);
    SameRuns(EdgesOf(store), s, MarksIn(store, ignore), a, b, map[]);
  }

  // ---- merging two histories -----------------------------------------------

  lemma {:induction false} KeepLinearPrefix(e: Edges, r: set<Id>, order: seq<Id>, s: set<Id>, n: nat)
    requires Linear(e, r, order) && s <= r && n <= |order|
    ensures NoDup(Keep(order[..n], s)) && DepsFirst(e, s, Keep(order[..n], s))
  {
    if n > 0 {
      var init, x := order[..n - 1], order[n - 1];
      assert order[..n][..n - 1] == init;
      KeepLinearPrefix(e, r, order, s, n - 1);
      KeepElems(init, s);
      if x in s {
        var kept := Keep(init, s);
        var all := kept + [x];
        assert Keep(order[..n], s) == all;
        forall i | 0 <= i < |kept| ensures kept[i] != x {
          assert kept[i] in Elems(kept);
          var j :| 0 <= j < n - 1 && order[j] == kept[i];
        }
        forall d | d in Deps(e, x) * s ensures d in kept {
          assert d in order[..n - 1];
          assert d in Elems(init) * s;
        }
        DepsFirstSnoc(e, s, kept, x);
      } else {
        assert Keep(order[..n], s) == Keep(init, s);
      }
    }
  }

  lemma DepsFirstSnoc(e: Edges, s: set<Id>, order: seq<Id>, x: Id)
    requires DepsFirst(e, s, order) && forall d :: d in Deps(e, x) * s ==> d in order
    ensures DepsFirst(e, s, order + [x])
  {
    var all := order + [x];
    forall i, d | 0 <= i < |all| && d in Deps(e, all[i]) * s ensures d in all[..i] {
      if i < |order| {
        assert all[i] == order[i] && all[..i] == order[..i];
      } else {
        assert all[..i] == order;
      }
    }
  }

  lemma KeepLinear(e: Edges, r: set<Id>, order: seq<Id>, s: set<Id>)
    requires Linear(e, r, order) && s <= r
    ensures Linear(e, s, Keep(order, s))
  {
    assert order[..|order|] == order;
    KeepLinearPrefix(e, r, order, s, |order|);
    KeepElems(order, s);
  }

  /** A key written by nobody outside the closed part `s` of `r` sees exactly the writes of `s`. */
  lemma PartDecides(store: Store, r: set<Id>, s: set<Id>, ignore: Ignore, k: NodePath)
    requires WellFormed(store) && Complete(store, r) && Complete(store, s) && s <= r && ConflictFree(store, r)
    requires forall x :: x in r - s ==> !Touches(store[x], k, ignore)
    ensures Proj(Flat(WritesIn(store, ignore), KahnOrder(EdgesOf(store), r)), k)
         == Proj(Flat(WritesIn(store, ignore), KahnOrder(EdgesOf(store), s)), k)
  {
    var e, f := EdgesOf(store), WritesIn(store, ignore);
    KahnOrderLinear(e, r);
    KahnOrderLinear(e, s);
    var o := KahnOrder(e, r);
    forall x | x in o && x !in s ensures Proj(f(x), k) == [] {
      assert x in Elems(o);
    }
    KeepProj(f, o, s, k);
    KeepLinear(e, r, o, s);
    ConflictFreeSerial(store, s, ignore, k);
    SameProj(e, s, f, Keep(o, s), KahnOrder(e, s), k);
  }

  /** A delta writes the key. */
  ghost predicate DeltaTouches(store: Store, delta: set<Id>, k: NodePath, ignore: Ignore) {
    exists x :: x in delta && x in store && Touches(store[x], k, ignore)
  }

  /** In a conflict-free union at most one exclusive delta writes a key. */
  lemma OneDeltaTouches(store: Store, a: set<Id>, b: set<Id>, k: NodePath, ignore: Ignore)
    requires Complete(store, a) && Complete(store, b) && ConflictFree(store, a + b)
    ensures !DeltaTouches(store, a - b, k, ignore) || !DeltaTouches(store, b - a, k, ignore)
  {
    if DeltaTouches(store, a - b, k, ignore) && DeltaTouches(store, b - a, k, ignore) {
      var x :| x in a - b && x in store && Touches(store[x], k, ignore);
      var y :| y in b - a && y in store && Touches(store[y], k, ignore);
      var e := EdgesOf(store);
      CrossUnrelated(e, a, b, x, y);
      assert Commutes(store[x], store[y]);
      DisjointKeys(store[x], Writes(store[x], ignore), store[y], Writes(store[y], ignore), k);
    }
  }

  lemma CrossUnrelated(e: Edges, a: set<Id>, b: set<Id>, x: Id, y: Id)
    requires Closed(e, a) && Closed(e, b) && x in a - b && y in b - a
    ensures !Related(e, x, y)
  {
    if Above(e, x, y) {
      AboveReaches(e, x, y);
      ReachesStaysClosed(e, a, x, y);
    }
    if Above(e, y, x) {
      AboveReaches(e, y, x);
      ReachesStaysClosed(e, b, y, x);
    }
  }

  /** The delta that writes a key decides all of its writes in the merged replay. */
  lemma MergeDecides(store: Store, a: set<Id>, b: set<Id>, ignore: Ignore, k: NodePath)
    requires WellFormed(store) && Complete(store, a) && Complete(store, b) && ConflictFree(store, a + b)
    ensures Proj(Flat(WritesIn(store, ignore), KahnOrder(EdgesOf(store), a + b)), k)
         == Proj(Flat(WritesIn(store, ignore),
                      KahnOrder(EdgesOf(store), if DeltaTouches(store, a - b, k, ignore) then a else b)), k)
  {
    OneDeltaTouches(store, a, b, k, ignore);
    if DeltaTouches(store, a - b, k, ignore) {
      assert forall x :: x in (a + b) - a ==> x in b - a;
      PartDecides(store, a + b, a, ignore, k);
    } else {
      assert forall x :: x in (a + b) - b ==> x in a - b;
      PartDecides(store, a + b, b, ignore, k);
    }
  }

  lemma UnionNoFail<V>(e: Edges, a: set<Id>, b: set<Id>, f: Id -> seq<Write<V>>)
    requires Acyclic(e) && NoFail(Flat(f, KahnOrder(e, a))) && NoFail(Flat(f, KahnOrder(e, b)))
    ensures NoFail(Flat(f, KahnOrder(e, a + b)))
  {
    var oa, ob, ou := KahnOrder(e, a), KahnOrder(e, b), KahnOrder(e, a + b);
    KahnOrderLinear(e, a);
    KahnOrderLinear(e, b);
    KahnOrderLinear(e, a + b);
    FlatNoFail(f, oa);
    FlatNoFail(f, ob);
    FlatNoFail(f, ou);
    forall x | x in ou ensures NoFail(f(x)) {
      assert x in Elems(ou);
      assert x in Elems(oa) || x in Elems(ob);
    }
  }

  /** What a merge leaves at a key: the current side's value if its delta writes the key, else the target's. */
  ghost function MergedAt(store: Store, a: set<Id>, b: set<Id>, sa: State, sb: State, k: NodePath, ignore: Ignore)
    : Option<Bytes>
  {
    if DeltaTouches(store, a - b, k, ignore) then Get(sa, k) else Get(sb, k)
  }

  /**
   A merge loses nothing: when both sides replay and their union is conflict-free, the union
   replays, and each key holds the value of the side whose delta wrote it.
   */
  lemma MergeLosesNothing(store: Store, a: set<Id>, b: set<Id>, ignore: Ignore)
    requires WellFormed(store) && Complete(store, a) && Complete(store, b) && ConflictFree(store, a + b)
    requires Materialized(store, a, ignore).Some? && Materialized(store, b, ignore).Some?
    ensures Materialized(store, a + b, ignore).Some?
    ensures forall k :: Get(Materialized(store, a + b, ignore).value, k)
                     == MergedAt(store, a, b, Materialized(store, a, ignore).value,
                                 Materialized(store, b, ignore).value, k, ignore)
  {
    var e, f := EdgesOf(store), WritesIn(store, ignore);
    var wa, wb, wu := Flat(f, KahnOrder(e, a)), Flat(f, KahnOrder(e, b)), Flat(f, KahnOrder(e, a + b));
    RunSucceeds(map[], wa);
    RunSucceeds(map[], wb);
    UnionNoFail(e, a, b, f);
    forall k
      ensures Proj(wu, k) == if DeltaTouches(store, a - b, k, ignore) then Proj(wa, k) else Proj(wb, k)
    {
      MergeDecides(store, a, b, ignore, k);
    }
    RunSucceeds(map[], wu);
    forall k
      ensures Get(Run(map[], wu).value, k)
           == if DeltaTouches(store, a - b, k, ignore) then Get(Run(map[], wa).value, k)
              else Get(Run(map[], wb).value, k)
    {
      RunAt(map[], wu, k);
      RunAt(map[], wa, k);
      RunAt(map[], wb, k);
    }
  }

  // ---- when a merge is accepted ---------------------------------------------

  /** The pairs of the two exclusive deltas that fail the check. */
  ghost function Conflicts(store: Store, a: set<Id>, b: set<Id>): set<(Id, Id)>
    requires a <= store.Keys && b <= store.Keys
  {
    set x, y | x in a - b && y in b - a && !Commutes(store[x], store[y]) :: (x, y)
  }

  /** For two conflict-free sides the check passes exactly when the union is conflict-free. */
  lemma AcceptanceIsExact(store: Store, a: set<Id>, b: set<Id>)
    requires Complete(store, a) && Complete(store, b) && ConflictFree(store, a) && ConflictFree(store, b)
    ensures Conflicts(store, a, b) == {} <==> ConflictFree(store, a + b)
  {
    var e := EdgesOf(store);
    if Conflicts(store, a, b) == {} {
      forall x, y | x in a + b && y in a + b && x != y && !Related(e, x, y) ensures Commutes(store[x], store[y]) {
        if x in a - b && y in b - a {
          assert (x, y) !in Conflicts(store, a, b);
        } else if x in b - a && y in a - b {
          assert (y, x) !in Conflicts(store, a, b);
          CommutesSymmetric(store[x], store[y]);
        }
      }
    }
    if ConflictFree(store, a + b) {
      forall x, y | x in a - b && y in b - a ensures Commutes(store[x], store[y]) {
        CrossUnrelated(e, a, b, x, y);
      }
    }
  }

  lemma CommutesSymmetric(a: Change, b: Change)
    ensures Commutes(a, b) == Commutes(b, a)
  {
    forall p: NodePath, q: NodePath ensures PathsOverlap(p, q) == PathsOverlap(q, p) {}
  }

  // ---- sequences of merges -------------------------------------------------

  /** Any grouping of merges of head sets. */
  datatype MergePlan = Side(heads: set<Id>) | Merge(left: MergePlan, right: MergePlan)

  /** All heads that take part in a plan. */
  ghost function AllHeads(p: MergePlan): set<Id> {
    match p
    case Side(h) => h
    case Merge(l, r) => AllHeads(l) + AllHeads(r)
  }

  /** Carrying the plan out: the united heads, or `None` as soon as one merge is refused. */
  ghost function CarryOut(store: Store, p: MergePlan): Option<set<Id>> {
    match p
    case Side(h) => Some(h)
    case Merge(l, r) =>
      match (CarryOut(store, l), CarryOut(store, r))
      case (Some(a), Some(b)) =>
        var (x, y) := (Anc(EdgesOf(store), a), Anc(EdgesOf(store), b));
        if x <= store.Keys && y <= store.Keys && Conflicts(store, x, y) == {} then Some(a + b) else None
      case _ => None
  }

  /** Every side that takes part is complete and conflict-free. */
  ghost predicate SidesFine(store: Store, p: MergePlan) {
    match p
    case Side(h) => Complete(store, Anc(EdgesOf(store), h)) && ConflictFree(store, Anc(EdgesOf(store), h))
    case Merge(l, r) => SidesFine(store, l) && SidesFine(store, r)
  }

  lemma SubsetConflictFree(store: Store, a: set<Id>, b: set<Id>)
    requires a <= b <= store.Keys && ConflictFree(store, b)
    ensures ConflictFree(store, a)
  {}

  lemma {:induction false} PlanHeadsComplete(store: Store, p: MergePlan)
    requires SidesFine(store, p)
    ensures Complete(store, Anc(EdgesOf(store), AllHeads(p)))
  {
    AncIsClosed(EdgesOf(store), AllHeads(p));
    match p
    case Side(_) =>
    case Merge(l, r) =>
      PlanHeadsComplete(store, l);
      PlanHeadsComplete(store, r);
      AncUnion(EdgesOf(store), AllHeads(l), AllHeads(r));
  }

  /**
   Whether a plan of merges goes through depends only on the heads that take part: it does exactly
   when all their ancestors together are conflict-free, and it ends with the union of the heads.
   So neither the order nor the grouping of merges matters.
   */
  lemma {:induction false} PlanOutcome(store: Store, p: MergePlan)
    requires SidesFine(store, p)
    ensures Complete(store, Anc(EdgesOf(store), AllHeads(p)))
    ensures CarryOut(store, p)
         == if ConflictFree(store, Anc(EdgesOf(store), AllHeads(p))) then Some(AllHeads(p)) else None
  {
    PlanHeadsComplete(store, p);
    match p
    case Side(_) =>
    case Merge(l, r) =>
      var e := EdgesOf(store);
      var x, y := Anc(e, AllHeads(l)), Anc(e, AllHeads(r));
      PlanOutcome(store, l);
      PlanOutcome(store, r);
      AncUnion(e, AllHeads(l), AllHeads(r));
      if ConflictFree(store, x) && ConflictFree(store, y) {
        AcceptanceIsExact(store, x, y);
      } else if ConflictFree(store, x + y) {
        SubsetConflictFree(store, x, x + y);
        SubsetConflictFree(store, y, x + y);
      }
  }

  // ---- blame ---------------------------------------------------------------

  /** State and blame have the same keys after any run of a change's writes, and stop together. */
  lemma {:induction false} SameKeysAtoms(c: Change, ignore: Ignore, s: State, b: Blame, n: nat)
    requires s.Keys == b.Keys && n <= |c.atoms| && Run(s, Writes(c, ignore)[..n]).Some?
    ensures Run(b, Marks(c, ignore)[..n]).Some?
    ensures Run(b, Marks(c, ignore)[..n]).value.Keys == Run(s, Writes(c, ignore)[..n]).value.Keys
  {
    var ws, ms := Writes(c, ignore), Marks(c, ignore);
    if n > 0 {
      assert ws[..n] == ws[..n - 1] + ws[n - 1..n];
      RunConcat(s, ws[..n - 1], ws[n - 1..n]);
      SameKeysAtoms(c, ignore, s, b, n - 1);
      RunSnoc(s, ws, n - 1);
      RunSnoc(b, ms, n - 1);
    }
  }

  /** Blame and state have the same keys after every prefix of a replay. */
  lemma {:induction false} SameKeys(store: Store, order: seq<Id>, ignore: Ignore)
    requires Elems(order) <= store.Keys && Replay(store, order, ignore).Some?
    ensures ReplayBlame(store, order, ignore).Some?
    ensures ReplayBlame(store, order, ignore).value.Keys == Replay(store, order, ignore).value.Keys
  {
    if order != [] {
      var init, last := order[..|order| - 1], order[|order| - 1];
      var f, g := WritesIn(store, ignore), MarksIn(store, ignore);
      assert last in Elems(order) && forall x :: x in init ==> x in Elems(order);
      RunConcat(map[], Flat(f, init), f(last));
      RunConcat(map[], Flat(g, init), g(last));
      SameKeys(store, init, ignore);
      var c := store[last];
      assert Writes(c, ignore)[..|c.atoms|] == f(last) && Marks(c, ignore)[..|c.atoms|] == g(last);
      SameKeysAtoms(c, ignore, Replay(store, init, ignore).value, ReplayBlame(store, init, ignore).value, |c.atoms|);
    }
  }

  /** A cell that is live after writes ending in some change's own is blamed on that change. */
  lemma {:induction false} CellBlame(c: Change, ignore: Ignore, ws: seq<Write<Id>>, before: Option<Id>)
    requires ws != [] && forall w :: w in ws ==> w in Marks(c, ignore)
    requires RunCell(before, ws).Some? && RunCell(before, ws).value.Some?
    ensures RunCell(before, ws) == Some(Some(c.id))
    decreases |ws|
  {
    assert ws[0] in ws;
    var cell := ApplyCell(before, ws[0]).value;
    if |ws| > 1 {
      assert forall w :: w in ws[1..] ==> w in ws;
      CellBlame(c, ignore, ws[1..], cell);
    } else {
      assert ws[1..] == [];
    }
  }

  /**
   Blame names the causally last writer: on a conflict-free history every live key is blamed on a
   change of the history that writes it and depends on every other change that writes it.
   */
  lemma BlameIsLastWriter(store: Store, s: set<Id>, order: seq<Id>, ignore: Ignore, k: NodePath)
    requires WellFormed(store) && Complete(store, s) && ConflictFree(store, s)
    requires Linear(EdgesOf(store), s, order) && Replay(store, order, ignore).Some?
    requires k in Replay(store, order, ignore).value
    ensures ReplayBlame(store, order, ignore).Some? && k in ReplayBlame(store, order, ignore).value
    ensures var w := ReplayBlame(store, order, ignore).value[k];
            && w in s && Proj(Marks(store[w], ignore), k) != []
            && forall x :: x in s && x != w && Proj(Marks(store[x], ignore), k) != [] ==> Above(EdgesOf(store), w, x)
  {
    var e, g := EdgesOf(store), MarksIn(store, ignore);
    SameKeys(store, order, ignore);
    var p := Writers(s, g, k);
    ConflictFreeSerial(store, s, ignore, k);
    assert order[..|order|] == order;
    KeepChain(e, s, order, p, |order|);
    KeepElems(order, p);
    KeepProj(g, order, p, k);
    var chain := Keep(order, p);
    RunAt(map[], Flat(g, order), k);
    assert chain != [];
    var init, last := chain[..|chain| - 1], chain[|chain| - 1];
    assert last in Elems(chain);
    var own := Proj(g(last), k);
    ProjConcat(Flat(g, init), g(last), k);
    RunCellConcat(None, Proj(Flat(g, init), k), own);
    forall w | w in own ensures w in Marks(store[last], ignore) {
      ProjMembers(Marks(store[last], ignore), k, w);
    }
    CellBlame(store[last], ignore, own, RunCell(None, Proj(Flat(g, init), k)).value);
    forall x | x in s && x != last && Proj(Marks(store[x], ignore), k) != [] ensures Above(e, last, x) {
      assert x in Elems(chain);
      var i :| 0 <= i < |chain| && chain[i] == x;
    }
  }
}
