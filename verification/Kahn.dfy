/**
 Kahn's algorithm as one function of the dependency edges and the set of ids to order,
 and the linear orders it produces.
 */
module Kahn {
  import opened Base
  import opened Reach

  // ---- sorting a set of ids ------------------------------------------------

  ghost predicate Ascending(s: seq<Id>) {
    forall i, j :: 0 <= i < j < |s| ==> s[i] < s[j]
  }

  lemma {:induction false} HasLeast(s: set<Id>)
    requires s != {}
    ensures exists m :: m in s && forall x :: x in s ==> m <= x
    decreases s
  {
    var m :| m in s;
    if s == {m} {
      assert forall x :: x in s ==> m <= x;
    } else {
      HasLeast(s - {m});
      var n :| n in s - {m} && forall x :: x in s - {m} ==> n <= x;
      LeastOfTwo(s, m, n);
    }
  }

  lemma LeastOfTwo(s: set<Id>, m: Id, n: Id)
    requires m in s && n in s && forall x :: x in s - {m} ==> n <= x
    ensures exists k :: k in s && forall x :: x in s ==> k <= x
  {
    var k := if n < m then n else m;
    forall x | x in s ensures k <= x {
      assert x == m || x in s - {m};
    }
  }

  lemma AscendingCons(m: Id, rest: seq<Id>)
    requires Ascending(rest) && forall x :: x in Elems(rest) ==> m < x
    ensures Ascending([m] + rest) && Elems([m] + rest) == {m} + Elems(rest)
  {
    assert forall i :: 0 <= i < |rest| ==> rest[i] in Elems(rest);
    assert forall x :: x in [m] + rest <==> x == m || x in rest;
  }

  /** The ids of a set in ascending order. */
  function SortIds(s: set<Id>): (r: seq<Id>)
    ensures Ascending(r) && Elems(r) == s
    decreases s
  {
    if s == {} then [] else
      HasLeast(s);
      var m: Id :| m in s && forall x :: x in s ==> m <= x;
      var rest := SortIds(s - {m});
      AscendingCons(m, rest);
      [m] + rest
  }

  lemma {:induction false} AscendingUnique(a: seq<Id>, b: seq<Id>)
    requires Ascending(a) && Ascending(b) && Elems(a) == Elems(b)
    ensures a == b
  {
    assert forall i :: 0 <= i < |a| ==> a[i] in Elems(a);
    assert forall i :: 0 <= i < |b| ==> b[i] in Elems(b);
    if a != [] && b != [] {
      assert a[0] in Elems(a) && b[0] in Elems(b);
      assert a[0] in b && b[0] in a;
      assert a[0] == b[0];
      forall x ensures x in Elems(a[1..]) <==> x in Elems(b[1..]) {
        if x in a[1..] { assert x in Elems(a) && x != a[0]; }
        if x in b[1..] { assert x in Elems(b) && x != b[0]; }
      }
      AscendingUnique(a[1..], b[1..]);
    }
  }

  // ---- the algorithm as a function -----------------------------------------

  /** The dependencies of `x` inside `r` that are not in `done`; its in-degree is their number. */
  function Pending(e: Edges, r: set<Id>, done: set<Id>, x: Id): set<Id> {
    set d | d in Deps(e, x) && d in r && d !in done
  }

  function Roots(e: Edges, r: set<Id>): set<Id> {
    set x | x in r && Pending(e, r, {}, x) == {}
  }

  /** The ids that become ready when `id` joins `order`. */
  function Released(e: Edges, r: set<Id>, order: seq<Id>, id: Id): set<Id> {
    set c | c in r && id in Deps(e, c) && Pending(e, r, Elems(order + [id]), c) == {}
  }

  function NextQueue(e: Edges, r: set<Id>, order: seq<Id>, queue: seq<Id>): seq<Id>
    requires queue != []
  {
    queue[1..] + SortIds(Released(e, r, order, queue[0]))
  }

  /** Every dependency inside `r` of a listed id is listed before it. */
  ghost predicate DepsFirst(e: Edges, r: set<Id>, order: seq<Id>) {
    forall i, d :: 0 <= i < |order| && d in Deps(e, order[i]) * r ==> d in order[..i]
  }

  /** What each turn of the main loop keeps: exactly the ready ids are listed or queued, once. */
  ghost predicate KahnInv(e: Edges, r: set<Id>, order: seq<Id>, queue: seq<Id>) {
    && NoDup(order + queue)
    && Elems(order + queue) == (set x | x in r && Pending(e, r, Elems(order), x) == {})
    && DepsFirst(e, r, order)
  }

  lemma KahnInit(e: Edges, r: set<Id>)
    ensures KahnInv(e, r, [], SortIds(Roots(e, r)))
  {
    var q := SortIds(Roots(e, r));
    assert [] + q == q;
    assert Elems<Id>([]) == {};
  }

  lemma KahnStep(e: Edges, r: set<Id>, order: seq<Id>, queue: seq<Id>)
    requires KahnInv(e, r, order, queue) && queue != []
    ensures queue[0] in r - Elems(order)
    ensures KahnInv(e, r, order + [queue[0]], NextQueue(e, r, order, queue))
    ensures Elems(order + [queue[0]]) == Elems(order) + {queue[0]}
  {
    var id := queue[0];
    var all := order + queue;
    var news := SortIds(Released(e, r, order, id));
    var order' := order + [id];
    assert all[|order|] == id && id in Elems(all);
    forall x | x in order ensures x != id {
      var i :| 0 <= i < |order| && order[i] == x;
      assert all[i] == x;
    }
    assert Elems(order') == Elems(order) + {id};
    assert all == order' + queue[1..];
    forall x | x in Released(e, r, order, id) ensures x !in all {
      assert id in Pending(e, r, Elems(order), x);
      assert x in Elems(all) <==> x in all;
    }
    var all' := order' + (queue[1..] + news);
    assert all' == all + news;
    assert NoDup(all') by {
      forall i, j | 0 <= i < j < |all'| ensures all'[i] != all'[j] {
        if i < |all| <= j {
          assert all'[j] in Elems(news);
          assert all'[i] in all;
        }
      }
    }
    forall x ensures x in Elems(all') <==> x in r && Pending(e, r, Elems(order'), x) == {} {
      assert x in Elems(all') <==> x in Elems(all) || x in Elems(news);
      if x in r && Pending(e, r, Elems(order'), x) == {} && x !in Elems(all) {
        assert Pending(e, r, Elems(order), x) != {};
        assert id in Deps(e, x);
      }
      if x in Elems(all) {
        assert Pending(e, r, Elems(order), x) == {};
        assert Pending(e, r, Elems(order'), x) == {};
      }
    }
    forall i, d | 0 <= i < |order'| && d in Deps(e, order'[i]) * r ensures d in order'[..i] {
      if i == |order| {
        assert d !in Pending(e, r, Elems(order), id);
        assert order'[..i] == order;
      } else {
        assert order'[..i] == order[..i];
      }
    }
  }

  /** The loop of the topological sort from a given order and queue. */
  ghost function KahnFrom(e: Edges, r: set<Id>, order: seq<Id>, queue: seq<Id>): (o: seq<Id>)
    requires KahnInv(e, r, order, queue)
    decreases r - Elems(order)
  {
    if queue == [] then order else
      KahnStep(e, r, order, queue);
      assert queue[0] in r - Elems(order) && queue[0] !in r - Elems(order + [queue[0]]);
      KahnFrom(e, r, order + [queue[0]], NextQueue(e, r, order, queue))
  }

  /** The order Kahn's algorithm gives the ids in `r`. */
  ghost function KahnOrder(e: Edges, r: set<Id>): seq<Id> {
    KahnInit(e, r);
    KahnFrom(e, r, [], SortIds(Roots(e, r)))
  }

  // ---- what the order is ---------------------------------------------------

  /** Each id of `r` exactly once, dependencies first. */
  ghost predicate Linear(e: Edges, r: set<Id>, order: seq<Id>) {
    NoDup(order) && Elems(order) == r && DepsFirst(e, r, order)
  }

  lemma {:induction false} KahnFromLinear(e: Edges, r: set<Id>, order: seq<Id>, queue: seq<Id>)
    requires KahnInv(e, r, order, queue) && Acyclic(e)
    ensures Linear(e, r, KahnFrom(e, r, order, queue))
    decreases r - Elems(order)
  {
    if queue == [] {
      assert order + queue == order;
      var rest := r - Elems(order);
      if x :| x in rest {
        var m := LowestBelow(e, rest, x);
        var d :| d in Pending(e, r, Elems(order), m);
        AboveDep(e, m, d);
      }
      assert Elems(order) == r by {
        assert Elems(order) <= r && r <= Elems(order) + rest;
      }
    } else {
      KahnStep(e, r, order, queue);
      assert queue[0] in r - Elems(order) && queue[0] !in r - Elems(order + [queue[0]]);
      KahnFromLinear(e, r, order + [queue[0]], NextQueue(e, r, order, queue));
    }
  }

  /** On an acyclic graph every id is listed exactly once, dependencies first. */
  lemma KahnOrderLinear(e: Edges, r: set<Id>)
    requires Acyclic(e)
    ensures Linear(e, r, KahnOrder(e, r))
  {
    KahnInit(e, r);
    KahnFromLinear(e, r, [], SortIds(Roots(e, r)));
  }

  lemma {:induction false} KahnFromAgrees(e: Edges, f: Edges, r: set<Id>, order: seq<Id>, queue: seq<Id>)
    requires Agree(e, f, r) && KahnInv(e, r, order, queue) && KahnInv(f, r, order, queue)
    ensures KahnFrom(e, r, order, queue) == KahnFrom(f, r, order, queue)
    decreases r - Elems(order)
  {
    if queue != [] {
      KahnStep(e, r, order, queue);
      KahnStep(f, r, order, queue);
      assert queue[0] in r - Elems(order) && queue[0] !in r - Elems(order + [queue[0]]);
      assert Released(e, r, order, queue[0]) == Released(f, r, order, queue[0]);
      KahnFromAgrees(e, f, r, order + [queue[0]], NextQueue(e, r, order, queue));
    }
  }

  /** The order depends only on the edges of the ids that are ordered. */
  lemma KahnOrderAgrees(e: Edges, f: Edges, r: set<Id>)
    requires Agree(e, f, r)
    ensures KahnOrder(e, r) == KahnOrder(f, r)
  {
    KahnInit(e, r);
    KahnInit(f, r);
    assert Roots(e, r) == Roots(f, r);
    KahnFromAgrees(e, f, r, [], SortIds(Roots(e, r)));
  }

  /** In a linear order of a closed set, everything below an id is listed before it. */
  lemma BelowIsEarlier(e: Edges, r: set<Id>, order: seq<Id>, i: int, y: Id)
    requires Acyclic(e) && Closed(e, r) && Linear(e, r, order)
    requires 0 <= i < |order| && Above(e, order[i], y)
    ensures y in order[..i]
  {
    var upTo := order[..i + 1];
    assert Closed(e, Elems(upTo)) by {
      forall x, d | x in upTo && d in Deps(e, x) ensures d in upTo {
        var j :| 0 <= j < |upTo| && upTo[j] == x;
        assert order[j] == x && x in r;
        assert d in order[..j];
        assert forall k :: 0 <= k < j ==> order[..j][k] == upTo[k];
      }
    }
    assert upTo[i] == order[i];
    AboveReaches(e, order[i], y);
    ReachesStaysClosed(e, Elems(upTo), order[i], y);
    var k :| 0 <= k < |upTo| && upTo[k] == y;
    assert k != i;
    assert order[..i][k] == y;
  }

  // ---- the tie-break -------------------------------------------------------

  /** The position of the last listed id that is in `ds`, or -1. */
  ghost function LastOf(ds: set<Id>, order: seq<Id>): (n: int)
    ensures -1 <= n < |order|
  {
    if order == [] then -1
    else if order[|order| - 1] in ds then |order| - 1
    else LastOf(ds, order[..|order| - 1])
  }

  /** When an id becomes ready: the position of its last listed dependency inside `r`, -1 for a root. */
  ghost function ReadyAt(e: Edges, r: set<Id>, order: seq<Id>, x: Id): int {
    LastOf(Deps(e, x) * r, order)
  }

  /** `x` comes before `y`: it became ready earlier, or at the same time and is smaller. */
  ghost predicate Sooner(e: Edges, r: set<Id>, order: seq<Id>, x: Id, y: Id) {
    || ReadyAt(e, r, order, x) < ReadyAt(e, r, order, y)
    || (ReadyAt(e, r, order, x) == ReadyAt(e, r, order, y) && x < y)
  }

  /** The ids are listed as they become ready, those that become ready together in ascending order. */
  ghost predicate TiesBroken(e: Edges, r: set<Id>, order: seq<Id>) {
    forall i, j :: 0 <= i < j < |order| ==> Sooner(e, r, order, order[i], order[j])
  }

  /** The same of what is listed and queued, as far as the order goes. */
  ghost predicate QueueTies(e: Edges, r: set<Id>, order: seq<Id>, queue: seq<Id>) {
    forall i, j :: 0 <= i < j < |order + queue| ==> Sooner(e, r, order, (order + queue)[i], (order + queue)[j])
  }

  lemma {:induction false} LastOfPrefix(ds: set<Id>, order: seq<Id>, n: nat)
    requires n <= |order| && forall k :: n <= k < |order| ==> order[k] !in ds
    ensures LastOf(ds, order) == LastOf(ds, order[..n])
    decreases |order|
  {
    if n < |order| {
      LastOfPrefix(ds, order[..|order| - 1], n);
      assert order[..|order| - 1][..n] == order[..n];
    } else {
      assert order[..n] == order;
    }
  }

  lemma LastOfSnoc(ds: set<Id>, order: seq<Id>, x: Id)
    ensures LastOf(ds, order + [x]) == if x in ds then |order| else LastOf(ds, order)
  {
    assert (order + [x])[..|order|] == order;
  }

  lemma TiesStart(e: Edges, r: set<Id>)
    ensures QueueTies(e, r, [], SortIds(Roots(e, r)))
  {
    var q := SortIds(Roots(e, r));
    assert [] + q == q;
    hide SortIds, Roots, LastOf;
    forall i, j | 0 <= i < j < |q| ensures Sooner(e, r, [], q[i], q[j]) {
      NothingListed(e, r, q[i]);
      NothingListed(e, r, q[j]);
    }
  }

  lemma NothingListed(e: Edges, r: set<Id>, x: Id)
    ensures ReadyAt(e, r, [], x) == -1
  {}

  lemma TiesStep(e: Edges, r: set<Id>, order: seq<Id>, queue: seq<Id>)
    requires KahnInv(e, r, order, queue) && queue != [] && QueueTies(e, r, order, queue)
    ensures QueueTies(e, r, order + [queue[0]], NextQueue(e, r, order, queue))
  {
    var id, news := queue[0], SortIds(Released(e, r, order, queue[0]));
    var all, order' := order + queue, order + [queue[0]];
    var all' := order' + NextQueue(e, r, order, queue);
    assert all' == all + news;
    KahnStep(e, r, order, queue);
    forall i | 0 <= i < |all| ensures ReadyAt(e, r, order', all[i]) == ReadyAt(e, r, order, all[i]) {
      OldStaysReady(e, r, order, queue, i);
      LastOfSnoc(Deps(e, all[i]) * r, order, id);
    }
    forall i | 0 <= i < |news| ensures ReadyAt(e, r, order', news[i]) == |order| {
      assert news[i] in Elems(news);
      LastOfSnoc(Deps(e, news[i]) * r, order, id);
    }
    hide ReadyAt, Released, KahnInv;
    forall i, j | 0 <= i < j < |all'| ensures Sooner(e, r, order', all'[i], all'[j]) {
      if j < |all| {
        assert Sooner(e, r, order, all[i], all[j]);
      }
    }
  }

  /** What is listed or queued does not wait for the head of the queue. */
  lemma OldStaysReady(e: Edges, r: set<Id>, order: seq<Id>, queue: seq<Id>, i: nat)
    requires KahnInv(e, r, order, queue) && queue != [] && i < |order + queue|
    ensures queue[0] in r && queue[0] !in Deps(e, (order + queue)[i]) * r
    ensures ReadyAt(e, r, order, (order + queue)[i]) < |order|
  {
    var x, id := (order + queue)[i], queue[0];
    QueueIsReady(e, r, order, queue);
    assert x in Elems(order + queue);
    assert id in Deps(e, x) ==> id in Pending(e, r, Elems(order), x);
  }

  lemma {:induction false} KahnFromTies(e: Edges, r: set<Id>, order: seq<Id>, queue: seq<Id>)
    requires KahnInv(e, r, order, queue) && QueueTies(e, r, order, queue)
    ensures TiesBroken(e, r, KahnFrom(e, r, order, queue))
    decreases r - Elems(order)
  {
    if queue == [] {
      assert order + queue == order;
    } else {
      KahnStep(e, r, order, queue);
      TiesStep(e, r, order, queue);
      assert queue[0] in r - Elems(order) && queue[0] !in r - Elems(order + [queue[0]]);
      KahnFromTies(e, r, order + [queue[0]], NextQueue(e, r, order, queue));
    }
  }

  /** Kahn's order lists the ids as they become ready, ties in ascending order. */
  lemma KahnOrderTies(e: Edges, r: set<Id>)
    ensures TiesBroken(e, r, KahnOrder(e, r))
  {
    KahnInit(e, r);
    TiesStart(e, r);
    KahnFromTies(e, r, [], SortIds(Roots(e, r)));
  }

  /** With dependencies in a common prefix an id becomes ready at the same place in both orders. */
  lemma SameReady(e: Edges, r: set<Id>, a: seq<Id>, n: nat, x: Id)
    requires NoDup(a) && n <= |a| && forall d :: d in Deps(e, x) * r ==> d in a[..n]
    ensures ReadyAt(e, r, a, x) == LastOf(Deps(e, x) * r, a[..n])
  {
    forall k | n <= k < |a| ensures a[k] !in Deps(e, x) * r {
      assert forall l :: 0 <= l < n ==> a[..n][l] == a[l] != a[k];
      assert a[k] !in a[..n];
    }
    LastOfPrefix(Deps(e, x) * r, a, n);
  }

  lemma TieAt(e: Edges, r: set<Id>, a: seq<Id>, n: nat, p: nat)
    requires TiesBroken(e, r, a) && n <= p < |a|
    ensures n == p || Sooner(e, r, a, a[n], a[p])
  {}

  /** Two linear orders of the same ids that agree up to `n` and break ties agree one further. */
  lemma NextIsSame(e: Edges, r: set<Id>, a: seq<Id>, b: seq<Id>, n: nat)
    requires Linear(e, r, a) && Linear(e, r, b) && TiesBroken(e, r, a) && TiesBroken(e, r, b)
    requires n < |a| && n < |b| && a[..n] == b[..n]
    ensures a[n] == b[n]
  {
    var x, y := a[n], b[n];
    assert x in Elems(a) && y in Elems(b);
    var p :| 0 <= p < |a| && a[p] == y;
    var q :| 0 <= q < |b| && b[q] == x;
    NotInPrefix(a, b, n, p);
    NotInPrefix(b, a, n, q);
    assert forall d :: d in Deps(e, x) * r ==> d in a[..n];
    assert forall d :: d in Deps(e, y) * r ==> d in b[..n];
    SameReady(e, r, a, n, x);
    SameReady(e, r, b, n, x);
    SameReady(e, r, a, n, y);
    SameReady(e, r, b, n, y);
    hide ReadyAt, LastOf, Linear;
    TieAt(e, r, a, n, p);
    TieAt(e, r, b, n, q);
  }

  lemma NotInPrefix(a: seq<Id>, b: seq<Id>, n: nat, p: nat)
    requires NoDup(b) && p < |a| && n < |a| && n < |b| && a[p] == b[n] && a[..n] == b[..n]
    ensures n <= p
  {
    assert forall i :: 0 <= i < n ==> a[i] == a[..n][i] == b[..n][i] == b[i] != b[n];
  }

  /** There is one linear order of a set that lists ids as they become ready and breaks ties. */
  lemma {:induction false} TiesDecide(e: Edges, r: set<Id>, a: seq<Id>, b: seq<Id>, n: nat)
    requires Linear(e, r, a) && Linear(e, r, b) && TiesBroken(e, r, a) && TiesBroken(e, r, b)
    requires |a| == |b| && n <= |a|
    ensures a[..n] == b[..n]
  {
    if n > 0 {
      TiesDecide(e, r, a, b, n - 1);
      NextIsSame(e, r, a, b, n - 1);
      assert a[..n] == a[..n - 1] + [a[n - 1]] && b[..n] == b[..n - 1] + [b[n - 1]];
    }
  }

  lemma {:induction false} NoDupSize(s: seq<Id>)
    requires NoDup(s)
    ensures |s| == |Elems(s)|
  {
    if s != [] {
      var init, last := s[..|s| - 1], s[|s| - 1];
      NoDupSize(init);
      assert s == init + [last];
      assert Elems(s) == Elems(init) + {last};
      assert last !in Elems(init);
    }
  }

  lemma OneOrder(e: Edges, r: set<Id>, a: seq<Id>, b: seq<Id>)
    requires Linear(e, r, a) && Linear(e, r, b) && TiesBroken(e, r, a) && TiesBroken(e, r, b)
    ensures a == b
  {
    NoDupSize(a);
    NoDupSize(b);
    TiesDecide(e, r, a, b, |a|);
    assert a[..|a|] == a && b[..|b|] == b;
  }

  // ---- appending a new top -------------------------------------------------

  /** `f` is `e` with the id `n` added on top of exactly the ids `heads`. */
  ghost predicate AddsTop(e: Edges, f: Edges, heads: set<Id>, n: Id) {
    && Deps(f, n) == heads
    && (forall x :: x != n ==> Deps(f, x) == Deps(e, x))
    && (forall x :: n !in Deps(f, x))
  }

  lemma AddsTopReaches(e: Edges, f: Edges, heads: set<Id>, n: Id, a: Id, b: Id)
    requires AddsTop(e, f, heads, n) && a != n && Reaches(f, a, b)
    ensures b != n && Reaches(e, a, b)
  {
    var p: seq<Id> :| IsPath(f, p) && p[0] == a && p[|p| - 1] == b;
    forall i | 0 <= i < |p| ensures p[i] != n {
      if i > 0 { assert p[i - 1 + 1] in Deps(f, p[i - 1]); }
    }
    assert IsPath(e, p);
  }

  lemma AddsTopAgrees(e: Edges, f: Edges, heads: set<Id>, n: Id, r: set<Id>)
    requires AddsTop(e, f, heads, n) && n !in r
    ensures Agree(e, f, r)
  {}

  /** Adding a fresh id on top adds just that id to the ancestors. */
  lemma AddsTopAncestors(e: Edges, f: Edges, heads: set<Id>, n: Id)
    requires AddsTop(e, f, heads, n) && n !in Anc(e, heads)
    ensures Agree(e, f, Anc(e, heads)) && Closed(f, Anc(e, heads))
    ensures Anc(f, {n}) == Anc(e, heads) + {n}
  {
    var r := Anc(e, heads);
    AncIsClosed(e, heads);
    AddsTopAgrees(e, f, heads, n, r);
    ClosedAgrees(e, f, r);
    AncAgrees(e, f, r, heads);
    AncIsClosed(f, {n});
    assert n in {n} && heads == Deps(f, n);
    AncIsLeast(f, heads, Anc(f, {n}));
    assert Closed(f, r + {n});
    AncIsLeast(f, {n}, r + {n});
  }

  /** Adding a fresh id on top keeps the graph acyclic. */
  lemma AddsTopAcyclic(e: Edges, f: Edges, heads: set<Id>, n: Id)
    requires AddsTop(e, f, heads, n) && Acyclic(e)
    ensures Acyclic(f)
  {
    forall x ensures !Above(f, x, x) {
      if Above(f, x, x) {
        var d :| d in Deps(f, x) && Reaches(f, d, x);
        AddsTopReaches(e, f, heads, n, d, x);
        assert Above(e, x, x);
      }
    }
  }

  lemma ReleasedOnTop(e: Edges, f: Edges, heads: set<Id>, n: Id, r: set<Id>, order: seq<Id>, queue: seq<Id>)
    requires AddsTop(e, f, heads, n) && n !in r && Closed(e, r) && queue != []
    requires heads <= r && !(heads <= Elems(order + [queue[0]]))
    ensures NextQueue(f, r + {n}, order, queue) == NextQueue(e, r, order, queue)
  {
    var done := Elems(order + [queue[0]]);
    forall c | c in r ensures Pending(e, r, done, c) == Pending(f, r + {n}, done, c) {
      assert Deps(f, c) == Deps(e, c) <= r;
    }
    var h :| h in heads && h !in done;
    assert h in Pending(f, r + {n}, done, n);
    assert Released(f, r + {n}, order, queue[0]) == Released(e, r, order, queue[0]);
  }

  lemma RootsOnTop(e: Edges, f: Edges, heads: set<Id>, n: Id, r: set<Id>)
    requires AddsTop(e, f, heads, n) && n !in r && Closed(e, r) && heads <= r && heads != {}
    ensures Roots(f, r + {n}) == Roots(e, r)
  {
    forall c | c in r ensures Pending(e, r, {}, c) == Pending(f, r + {n}, {}, c) {
      assert Deps(f, c) == Deps(e, c) <= r;
    }
    var h :| h in heads;
    assert h in Pending(f, r + {n}, {}, n);
  }

  /** Once all heads are listed there is nothing left to list. */
  lemma HeadsListedIsAll(e: Edges, heads: set<Id>, order: seq<Id>, queue: seq<Id>)
    requires KahnInv(e, Anc(e, heads), order, queue) && heads <= Elems(order)
    ensures Elems(order) == Anc(e, heads) && queue == []
  {
    var r := Anc(e, heads);
    AncIsClosed(e, heads);
    QueueIsReady(e, r, order, queue);
    assert queue != [] ==> queue[0] in r - Elems(order);
    assert Closed(e, Elems(order)) by {
      forall x, d | x in order && d in Deps(e, x) ensures d in order {
        var i :| 0 <= i < |order| && order[i] == x;
        assert x in r && d in r;
        assert d in order[..i];
      }
    }
    AncIsLeast(e, heads, Elems(order));
  }

  lemma QueueIsReady(e: Edges, r: set<Id>, order: seq<Id>, queue: seq<Id>)
    requires KahnInv(e, r, order, queue)
    ensures forall x :: x in order ==> x in r
    ensures forall i :: 0 <= i < |queue| ==> queue[i] in r && queue[i] !in order
  {
    var all := order + queue;
    forall x | x in order ensures x in r {
      assert x in Elems(all);
    }
    forall i | 0 <= i < |queue| ensures queue[i] in r && queue[i] !in order {
      assert all[|order| + i] == queue[i] && queue[i] in Elems(all);
      forall j | 0 <= j < |order| ensures order[j] != queue[i] {
        assert all[j] == order[j];
      }
    }
  }

  lemma SingleElement(q: seq<Id>, n: Id)
    requires NoDup(q) && n in q && forall i :: 0 <= i < |q| ==> q[i] == n
    ensures q == [n]
  {
    assert q[|q| - 1] == q[0];
  }

  lemma KahnFromLast(e: Edges, f: Edges, heads: set<Id>, n: Id, order: seq<Id>, queue: seq<Id>, queue': seq<Id>)
    requires AddsTop(e, f, heads, n) && n !in Anc(e, heads)
    requires KahnInv(e, Anc(e, heads), order, queue) && KahnInv(f, Anc(e, heads) + {n}, order, queue')
    requires heads <= Elems(order)
    ensures KahnFrom(f, Anc(e, heads) + {n}, order, queue') == KahnFrom(e, Anc(e, heads), order, queue) + [n]
  {
    var r := Anc(e, heads);
    AncIsClosed(e, heads);
    HeadsListedIsAll(e, heads, order, queue);
    QueueIsReady(f, r + {n}, order, queue');
    assert Pending(f, r + {n}, Elems(order), n) == {};
    assert n in Elems(order + queue') && n !in Elems(order);
    assert forall i :: 0 <= i < |queue'| ==> queue'[i] == n;
    assert forall i :: 0 <= i < |queue'| ==> queue'[i] == (order + queue')[|order| + i];
    SingleElement(queue', n);
    KahnStep(f, r + {n}, order, [n]);
    assert Released(f, r + {n}, order, n) == {};
    assert [n][1..] + SortIds({}) == [];
  }

  lemma {:induction false} KahnFromAppends(e: Edges, f: Edges, heads: set<Id>, n: Id, order: seq<Id>,
                                           queue: seq<Id>, queue': seq<Id>)
    requires AddsTop(e, f, heads, n) && n !in Anc(e, heads) && Acyclic(e)
    requires KahnInv(e, Anc(e, heads), order, queue) && KahnInv(f, Anc(e, heads) + {n}, order, queue')
    requires heads <= Elems(order) || queue == queue'
    ensures KahnFrom(f, Anc(e, heads) + {n}, order, queue') == KahnFrom(e, Anc(e, heads), order, queue) + [n]
    decreases Anc(e, heads) - Elems(order)
  {
    var r := Anc(e, heads);
    AncIsClosed(e, heads);
    if heads <= Elems(order) {
      KahnFromLast(e, f, heads, n, order, queue, queue');
    } else if queue == [] {
      KahnFromLinear(e, r, order, queue);
    } else {
      KahnStep(e, r, order, queue);
      KahnStep(f, r + {n}, order, queue);
      if !(heads <= Elems(order + [queue[0]])) {
        ReleasedOnTop(e, f, heads, n, r, order, queue);
      }
      assert queue[0] in r - Elems(order) && queue[0] !in r - Elems(order + [queue[0]]);
      KahnFromAppends(e, f, heads, n, order + [queue[0]],
                      NextQueue(e, r, order, queue),
                      NextQueue(f, r + {n}, order, queue));
    }
  }

  /** The order of a fresh id on top of `heads` is the order of `heads` followed by that id. */
  lemma KahnOrderAppends(e: Edges, f: Edges, heads: set<Id>, n: Id)
    requires AddsTop(e, f, heads, n) && n !in Anc(e, heads) && Acyclic(e)
    ensures KahnOrder(f, Anc(f, {n})) == KahnOrder(e, Anc(e, heads)) + [n]
  {
    var r := Anc(e, heads);
    AddsTopAncestors(e, f, heads, n);
    AncIsClosed(e, heads);
    KahnInit(e, r);
    KahnInit(f, r + {n});
    if heads != {} {
      RootsOnTop(e, f, heads, n, r);
    }
    KahnFromAppends(e, f, heads, n, [], SortIds(Roots(e, r)), SortIds(Roots(f, r + {n})));
  }

  // ---- merge base ----------------------------------------------------------

  /** The common ancestors that are below no other common ancestor. */
  ghost function MergeBase(e: Edges, a: set<Id>, b: set<Id>): set<Id> {
    set x | x in Anc(e, a) && x in Anc(e, b) && forall y :: y in Anc(e, a) && y in Anc(e, b) ==> !Above(e, y, x)
  }

  /** The merge base is an antichain and its ancestors are exactly the common ancestors. */
  lemma MergeBaseSpans(e: Edges, a: set<Id>, b: set<Id>)
    requires Acyclic(e)
    ensures forall x, y :: x in MergeBase(e, a, b) && y in MergeBase(e, a, b) ==> !Above(e, x, y)
    ensures Anc(e, MergeBase(e, a, b)) == Anc(e, a) * Anc(e, b)
  {
    var m := MergeBase(e, a, b);
    var common := Anc(e, a) * Anc(e, b);
    AncIsClosed(e, a);
    AncIsClosed(e, b);
    assert Closed(e, common);
    AncIsLeast(e, m, common);
    forall x | x in common ensures x in Anc(e, m) {
      var h := HighestAbove(e, common, x);
      assert h in m;
      if h != x {
        AboveReaches(e, h, x);
      }
      ReachesSelf(e, h);
      AncIff(e, m, x);
    }
  }

  /** No dependency path links the two exclusive deltas. */
  lemma DeltasUnrelated(e: Edges, a: set<Id>, b: set<Id>, x: Id, y: Id)
    requires x in Anc(e, a) - Anc(e, b) && y in Anc(e, b) - Anc(e, a)
    ensures x != y && !Related(e, x, y)
  {
    if Above(e, x, y) {
      AboveReaches(e, x, y);
      AncReaches(e, a, x, y);
    }
    if Above(e, y, x) {
      AboveReaches(e, y, x);
      AncReaches(e, b, y, x);
    }
  }
}
