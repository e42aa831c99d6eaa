/** The in-memory DAG of changes (`src/store/graph.rs`). */
module Graph {
  import opened Base
  import opened Reach
  import opened Kahn
  import opened Algebra
  import opened History

  /** A set as a queue, in whatever order its iteration happens to give. */
  method Listed(s: set<Id>) returns (q: seq<Id>)
    ensures NoDup(q) && Elems(q) == s
  {
    q := [];
    var rest := s;
    while rest != {}
      invariant NoDup(q) && Elems(q) + rest == s && Elems(q) !! rest
    {
      var x :| x in rest;
      rest := rest - {x};
      assert forall i :: 0 <= i < |q| ==> q[i] in Elems(q);
      assert forall y :: y in q + [x] <==> y in q || y == x;
      q := q + [x];
    }
  }

  /** The two edge maps hold the same arrows in opposite directions. */
  ghost predicate IsTranspose(reverse: Edges, edges: Edges) {
    forall d, c :: c in Deps(reverse, d) <==> d in Deps(edges, c)
  }

  /** `id` has been added below all of `deps` except `rest`. */
  ghost predicate Linking(reverse: Edges, before: Edges, id: Id, deps: set<Id>, rest: set<Id>) {
    && before.Keys <= reverse.Keys
    && forall d :: Deps(reverse, d) == Deps(before, d) + if d in deps && d !in rest then {id} else {}
  }

  lemma LinkingStart(before: Edges, id: Id, deps: set<Id>)
    ensures Linking(before, before, id, deps, deps)
  {
  }

  lemma LinkingStep(reverse: Edges, before: Edges, id: Id, deps: set<Id>, rest: set<Id>, dep: Id)
    requires Linking(reverse, before, id, deps, rest) && dep in rest && dep in deps
    ensures Linking(reverse[dep := Deps(reverse, dep) + {id}], before, id, deps, rest - {dep})
  {
    var next := reverse[dep := Deps(reverse, dep) + {id}];
    assert forall d :: d != dep ==> Deps(next, d) == Deps(reverse, d);
    assert Deps(next, dep) == Deps(reverse, dep) + {id};
    forall d ensures Deps(next, d) == Deps(before, d) + if d in deps && d !in rest - {dep} then {id} else {} {
      if d == dep {
        assert Deps(reverse, d) == Deps(before, d);
      }
    }
  }

  lemma LinkingEnd(reverse: Edges, before: Edges, edges: Edges, id: Id, deps: set<Id>)
    requires Linking(reverse, before, id, deps, {}) && IsTranspose(before, edges)
    requires id in edges ==> edges[id] == deps
    ensures IsTranspose(reverse, edges[id := deps]) && before.Keys <= reverse.Keys
    ensures id !in reverse ==> IsTranspose(reverse[id := {}], edges[id := deps])
  {
    var after := edges[id := deps];
    forall d, c ensures c in Deps(reverse, d) <==> d in Deps(after, c) {
      assert c in Deps(before, d) <==> d in Deps(edges, c);
      assert Deps(after, c) == if c == id then deps else Deps(edges, c);
    }
    if id !in reverse {
      forall d, c ensures c in Deps(reverse[id := {}], d) <==> d in Deps(after, c) {
        assert c in Deps(reverse, d) <==> d in Deps(after, c);
      }
    }
  }

  class ChangeGraph {
    /** Every change in the graph by id. */
    var nodes: map<Id, Change>
    /** Forward edges: a change to its dependencies. */
    var edges: Edges
    /** Reverse edges: a dependency to the changes that name it, ghosts included. */
    var reverseEdges: Edges

    /** The edges are those of the nodes and the reverse edges are their transpose. */
    ghost predicate Valid()
      reads this
    {
      && edges == EdgesOf(nodes)
      && IsTranspose(reverseEdges, edges)
      && nodes.Keys <= reverseEdges.Keys
    }

    constructor ()
      ensures Valid() && nodes == map[]
    {
      nodes, edges, reverseEdges := map[], map[], map[];
    }

    /** Adding a change again is allowed; an id determines its change, so its dependencies are the same. */
    method AddChange(c: Change)
      requires Valid()
      requires c.id in nodes ==> nodes[c.id].deps == c.deps
      modifies this
      ensures Valid() && nodes == old(nodes)[c.id := c]
    {
      hide Linking, IsTranspose;
      var id := c.id;
      ghost var before := reverseEdges;
      edges := edges[id := c.deps];
      var rest := c.deps;
      LinkingStart(reverseEdges, id, c.deps);
      while rest != {}
        invariant nodes == old(nodes) && edges == old(edges)[id := c.deps] && rest <= c.deps
        invariant Linking(reverseEdges, before, id, c.deps, rest)
      {
        var dep :| dep in rest;
        LinkingStep(reverseEdges, before, id, c.deps, rest, dep);
        rest := rest - {dep};
        reverseEdges := reverseEdges[dep := Deps(reverseEdges, dep) + {id}];
      }
      assert rest == {} && (id in old(edges) ==> old(edges)[id] == c.deps);
      LinkingEnd(reverseEdges, before, old(edges), id, c.deps);
      if id !in reverseEdges {
        reverseEdges := reverseEdges[id := {}];
      }
      nodes := nodes[id := c];
    }

    /** Breadth-first search over dependencies: the heads and all their ancestors, ghosts included. */
    method AncestorsInclusive(heads: set<Id>) returns (visited: set<Id>)
      requires Valid()
      ensures visited == Anc(edges, heads)
    {
      AncIsClosed(edges, heads);
      visited := Walk(heads, Anc(edges, heads));
      AncIsLeast(edges, heads, visited);
    }

    method Walk(heads: set<Id>, ghost bound: set<Id>) returns (visited: set<Id>)
      requires heads <= bound && Closed(edges, bound)
      ensures heads <= visited <= bound && Closed(edges, visited)
    {
      visited := {};
      var queue := Listed(heads);
      while queue != []
        invariant visited + Elems(queue) <= bound
        invariant heads <= visited + Elems(queue)
        invariant forall x :: x in visited ==> Deps(edges, x) <= visited + Elems(queue)
        decreases bound - visited, |queue|
      {
        var id := queue[0];
        PopElems(queue);
        queue := queue[1..];
        if id in visited {
          continue;
        }
        visited := visited + {id};
        if id in edges {
          queue := Enqueue(queue, edges[id], visited);
        }
      }
    }

    method Ancestors(heads: set<Id>) returns (r: set<Id>)
      requires Valid()
      ensures r == Anc(edges, heads)
    {
      r := AncestorsInclusive(heads);
    }

    /** Kahn's algorithm with in-degree counters: it computes the order `KahnOrder` of the ancestors. */
    method TopologicalSort(startHeads: set<Id>) returns (order: seq<Id>)
      requires Valid()
      ensures order == KahnOrder(edges, Anc(edges, startHeads))
      ensures TiesBroken(edges, Anc(edges, startHeads), order)
      ensures Acyclic(edges) ==> Linear(edges, Anc(edges, startHeads), order)
    {
      KahnOrderTies(edges, Anc(edges, startHeads));
      if Acyclic(edges) {
        KahnOrderLinear(edges, Anc(edges, startHeads));
      }
      var reachable := AncestorsInclusive(startHeads);
      var inDegree := InDegrees(reachable);
      var roots := set x | x in inDegree && inDegree[x] == 0;
      CountsRoots(reachable, inDegree);
      assert roots == Roots(edges, reachable);
      var queue := SortIds(roots);
      KahnInit(edges, reachable);
      assert Elems<Id>([]) == {};
      order := Drain(reachable, inDegree, queue);
    }

    lemma CountsRoots(r: set<Id>, inDegree: map<Id, nat>)
      requires Counts(r, {}, inDegree)
      ensures (set x | x in inDegree && inDegree[x] == 0) == Roots(edges, r)
    {
      forall x | x in r ensures inDegree[x] == 0 <==> Pending(edges, r, {}, x) == {} {
        assert inDegree[x] == |Pending(edges, r, {}, x)|;
      }
    }

    /** The main loop: list the first queued id, count down its children, until the queue is empty. */
    method Drain(reachable: set<Id>, inDegree0: map<Id, nat>, queue0: seq<Id>) returns (order: seq<Id>)
      requires Valid() && KahnInv(edges, reachable, [], queue0) && Counts(reachable, Elems<Id>([]), inDegree0)
      ensures order == KahnFrom(edges, reachable, [], queue0)
    {
      var inDegree, queue := inDegree0, queue0;
      order := [];
      while queue != []
        invariant KahnInv(edges, reachable, order, queue)
        invariant KahnFrom(edges, reachable, order, queue) == KahnFrom(edges, reachable, [], queue0)
        invariant Counts(reachable, Elems(order), inDegree)
        decreases reachable - Elems(order)
      {
        var id := queue[0];
        TurnIsKahn(edges, reachable, order, queue);
        var children := Children(id, reachable);
        inDegree, queue := Peel(reachable, order, id, children, queue[1..], inDegree);
        order := order + [id];
      }
    }

    /** The counters hold the number of dependencies in `r` that are still to be listed. */
    ghost predicate Counts(r: set<Id>, done: set<Id>, inDegree: map<Id, nat>)
      reads this
    {
      inDegree.Keys == r && forall x :: x in r ==> inDegree[x] == |Pending(edges, r, done, x)|
    }

    method InDegrees(reachable: set<Id>) returns (inDegree: map<Id, nat>)
      ensures Counts(reachable, {}, inDegree)
    {
      inDegree := map[];
      var rest := reachable;
      while rest != {}
        invariant rest <= reachable && inDegree.Keys == reachable - rest
        invariant forall x :: x in inDegree ==> inDegree[x] == |Pending(edges, reachable, {}, x)|
      {
        var id :| id in rest;
        rest := rest - {id};
        var inside := if id in edges then set d | d in edges[id] && d in reachable else {};
        assert inside == Pending(edges, reachable, {}, id);
        inDegree := inDegree[id := |inside|];
      }
    }

    /** The children of an id inside `reachable`, sorted. */
    method Children(id: Id, reachable: set<Id>) returns (children: seq<Id>)
      requires Valid()
      ensures Ascending(children) && forall c :: c in children <==> c in reachable && id in Deps(edges, c)
    {
      children := [];
      assert forall c :: c in Deps(reverseEdges, id) <==> id in Deps(edges, c);
      if id in reverseEdges {
        children := SortIds(reverseEdges[id] * reachable);
        assert forall c :: c in children <==> c in Elems(children);
      }
    }

    /** List `id`: count down its children, queueing those that reach zero. */
    method Peel(reachable: set<Id>, ghost order: seq<Id>, id: Id, children: seq<Id>, queue0: seq<Id>,
                inDegree0: map<Id, nat>)
      returns (inDegree: map<Id, nat>, queue: seq<Id>)
      requires id in reachable && id !in order
      requires Ascending(children) && forall c :: c in children <==> c in reachable && id in Deps(edges, c)
      requires Counts(reachable, Elems(order), inDegree0)
      ensures Counts(reachable, Elems(order + [id]), inDegree)
      ensures queue == queue0 + SortIds(Released(edges, reachable, order, id))
    {
      ghost var want := map x | x in reachable :: |Pending(edges, reachable, Elems(order + [id]), x)|;
      PendingShrinks(edges, reachable, order, id);
      ghost var pushed: seq<Id>;
      inDegree, queue, pushed := CountDown(want, children, inDegree0, queue0);
      PushedAreReleased(edges, reachable, order, id, children, pushed);
    }

    /** The lowest common ancestors: common ancestors that lie below no other common ancestor. */
    method MergeBase(headsA: set<Id>, headsB: set<Id>) returns (lca: set<Id>)
      requires Valid()
      ensures lca == Kahn.MergeBase(edges, headsA, headsB)
    {
      var ancestorsA := Ancestors(headsA);
      var ancestorsB := Ancestors(headsB);
      var common := ancestorsA * ancestorsB;
      AncIsClosed(edges, headsA);
      AncIsClosed(edges, headsB);
      assert Closed(edges, common);
      if common == {} {
        return {};
      }
      ghost var below := Below(edges, common);
      BelowIsClosed(edges, common);
      var strict := StrictAncestors(common, below);
      BelowIsLeast(edges, common, strict);
      lca := common - strict;
    }

    method StrictAncestors(common: set<Id>, ghost below: set<Id>) returns (strict: set<Id>)
      requires Closed(edges, common) && Closed(edges, below) && below <= common
      requires forall x :: x in common ==> Deps(edges, x) <= below
      ensures strict <= below && Closed(edges, strict)
      ensures forall x :: x in common ==> Deps(edges, x) <= strict
    {
      strict := {};
      var rest := common;
      while rest != {}
        invariant rest <= common && strict <= below && Closed(edges, strict)
        invariant forall x :: x in common && x !in rest ==> Deps(edges, x) <= strict
      {
        var id :| id in rest;
        rest := rest - {id};
        if id in edges {
          ghost var strict0 := strict;
          var deps := edges[id];
          while deps != {}
            invariant deps <= edges[id] && strict0 <= strict <= below && Closed(edges, strict)
            invariant edges[id] - deps <= strict
          {
            var dep :| dep in deps;
            deps := deps - {dep};
            if dep in common {
              strict := Descend(common, below, strict, dep);
            }
          }
        }
      }
    }

    /** The inner walk of `MergeBase`: mark `dep` and everything below it. */
    method Descend(common: set<Id>, ghost below: set<Id>, strict0: set<Id>, dep: Id) returns (strict: set<Id>)
      requires Closed(edges, below) && below <= common && Closed(edges, strict0)
      requires strict0 <= below && dep in below
      ensures strict0 + {dep} <= strict <= below && Closed(edges, strict)
    {
      strict := strict0;
      var queue := [dep];
      while queue != []
        invariant strict0 <= strict && strict + Elems(queue) <= below
        invariant dep in strict + Elems(queue)
        invariant forall x :: x in strict ==> Deps(edges, x) <= strict + Elems(queue)
        decreases below - strict, |queue|
      {
        var cur := queue[0];
        PopElems(queue);
        queue := queue[1..];
        if cur in strict {
          continue;
        }
        strict := strict + {cur};
        if cur in edges {
          assert Deps(edges, cur) <= common;
          queue := Enqueue(queue, edges[cur] * common, strict);
        }
      }
    }
  }

  /** Count down each child once, in order, to `want`; `pushed` are those that reach zero. */
  method CountDown(ghost want: map<Id, nat>, children: seq<Id>, inDegree0: map<Id, nat>, queue0: seq<Id>)
    returns (inDegree: map<Id, nat>, queue: seq<Id>, ghost pushed: seq<Id>)
    requires inDegree0.Keys == want.Keys && Ascending(children) && forall x :: x in children ==> x in want
    requires forall x :: x in want ==> inDegree0[x] == want[x] + if x in children then 1 else 0
    ensures inDegree == want
    ensures queue == queue0 + pushed && Ascending(pushed)
    ensures forall x :: x in pushed <==> x in children && want[x] == 0
  {
    inDegree, queue, pushed := inDegree0, queue0, [];
    for i := 0 to |children|
      invariant inDegree.Keys == want.Keys
      invariant forall x :: x in want ==> inDegree[x] == want[x] + if x in children[i..] then 1 else 0
      invariant queue == queue0 + pushed && Ascending(pushed)
      invariant forall x :: x in pushed <==> x in children[..i] && want[x] == 0
    {
      var child := children[i];
      AscendingTail(children, i);
      inDegree := inDegree[child := inDegree[child] - 1];
      if inDegree[child] == 0 {
        queue := queue + [child];
        pushed := AppendLargest(pushed, child);
      }
    }
    assert children[..|children|] == children;
  }

  /** Queue, in iteration order, the members of `more` that are not in `seen`. */
  method Enqueue(queue0: seq<Id>, more: set<Id>, seen: set<Id>) returns (queue: seq<Id>)
    ensures Elems(queue) == Elems(queue0) + (more - seen)
  {
    queue := queue0;
    var rest := more;
    while rest != {}
      invariant rest <= more
      invariant Elems(queue) == Elems(queue0) + (more - rest - seen)
    {
      var dep :| dep in rest;
      ghost var added := more - rest - seen;
      rest := rest - {dep};
      assert more - rest - seen == added + ({dep} - seen);
      if dep !in seen {
        PushElems(queue, dep);
        queue := queue + [dep];
      } else {
        assert added + ({dep} - seen) == added;
      }
    }
  }

  lemma PushElems(q: seq<Id>, x: Id)
    ensures Elems(q + [x]) == Elems(q) + {x}
  {
    assert forall y :: y in q + [x] <==> y in q || y == x;
  }

  lemma AscendingTail(s: seq<Id>, i: nat)
    requires Ascending(s) && i < |s|
    ensures s[i] !in s[i + 1..]
    ensures forall x :: x in s[i..] <==> x == s[i] || x in s[i + 1..]
    ensures forall x :: x in s[..i + 1] <==> x == s[i] || x in s[..i]
    ensures forall x :: x in s[..i] ==> x < s[i]
  {
    assert s[i..] == [s[i]] + s[i + 1..];
    assert s[..i + 1] == s[..i] + [s[i]];
  }

  ghost function AppendLargest(s: seq<Id>, x: Id): (r: seq<Id>)
    requires Ascending(s) && forall y :: y in s ==> y < x
    ensures Ascending(r) && r == s + [x] && forall y :: y in r <==> y in s || y == x
  {
    assert forall i :: 0 <= i < |s| ==> s[i] in s;
    s + [x]
  }

  lemma TurnIsKahn(e: Edges, r: set<Id>, order: seq<Id>, queue: seq<Id>)
    requires KahnInv(e, r, order, queue) && queue != []
    ensures queue[0] in r && queue[0] !in order
    ensures KahnInv(e, r, order + [queue[0]], queue[1..] + SortIds(Released(e, r, order, queue[0])))
    ensures KahnFrom(e, r, order, queue)
         == KahnFrom(e, r, order + [queue[0]], queue[1..] + SortIds(Released(e, r, order, queue[0])))
    ensures r - Elems(order + [queue[0]]) < r - Elems(order)
  {
    KahnStep(e, r, order, queue);
    assert queue[0] in r - Elems(order) && queue[0] !in r - Elems(order + [queue[0]]);
  }

  lemma PendingShrinks(e: Edges, r: set<Id>, order: seq<Id>, id: Id)
    requires id in r && id !in order
    ensures forall x :: x in r ==>
              |Pending(e, r, Elems(order), x)|
              == |Pending(e, r, Elems(order + [id]), x)| + if id in Deps(e, x) then 1 else 0
  {
    PushElems(order, id);
    forall x | x in r
      ensures |Pending(e, r, Elems(order), x)|
           == |Pending(e, r, Elems(order + [id]), x)| + if id in Deps(e, x) then 1 else 0
    {
      assert Pending(e, r, Elems(order + [id]), x) == Pending(e, r, Elems(order), x) - {id};
    }
  }

  lemma PushedAreReleased(e: Edges, r: set<Id>, order: seq<Id>, id: Id, children: seq<Id>, pushed: seq<Id>)
    requires forall c :: c in children <==> c in r && id in Deps(e, c)
    requires Ascending(pushed)
    requires forall x :: x in pushed <==> x in children && |Pending(e, r, Elems(order + [id]), x)| == 0
    ensures pushed == SortIds(Released(e, r, order, id))
  {
    forall x ensures x in Elems(pushed) <==> x in Released(e, r, order, id) {
      assert |Pending(e, r, Elems(order + [id]), x)| == 0 <==> Pending(e, r, Elems(order + [id]), x) == {};
    }
    AscendingUnique(pushed, SortIds(Released(e, r, order, id)));
  }

  lemma PopElems(q: seq<Id>)
    requires q != []
    ensures Elems(q) == {q[0]} + Elems(q[1..])
  {
    assert q == [q[0]] + q[1..];
    assert forall x :: x in q <==> x == q[0] || x in q[1..];
  }

  // ---- what merge base leaves out ------------------------------------------

  /** The members of `s` that lie below a member of `s`. */
  ghost function Below(e: Edges, s: set<Id>): set<Id> {
    set x | x in s && exists y :: y in s && Above(e, y, x)
  }

  lemma BelowIsClosed(e: Edges, s: set<Id>)
    requires Closed(e, s)
    ensures Closed(e, Below(e, s))
    ensures forall x :: x in s ==> Deps(e, x) <= Below(e, s)
  {
    forall x, d | x in s && d in Deps(e, x) ensures d in Below(e, s) {
      AboveDep(e, x, d);
    }
  }

  lemma BelowIsLeast(e: Edges, s: set<Id>, t: set<Id>)
    requires Closed(e, s) && Closed(e, t) && t <= Below(e, s)
    requires forall x :: x in s ==> Deps(e, x) <= t
    ensures t == Below(e, s)
  {
    forall x | x in Below(e, s) ensures x in t {
      var y :| y in s && Above(e, y, x);
      var d :| d in Deps(e, y) && Reaches(e, d, x);
      ReachesStaysClosed(e, t, d, x);
    }
  }

  // ---- the order of insertion does not matter ------------------------------

  /** The nodes after adding the listed changes to an empty graph. */
  ghost function Added(cs: seq<Change>): map<Id, Change> {
    if cs == [] then map[] else Added(cs[..|cs| - 1])[cs[|cs| - 1].id := cs[|cs| - 1]]
  }

  lemma {:induction false} AddedAt(cs: seq<Change>, i: Id)
    requires forall a, b :: a in cs && b in cs && a.id == b.id ==> a == b
    ensures i in Added(cs) <==> exists c :: c in cs && c.id == i
    ensures i in Added(cs) ==> Added(cs)[i] in cs && Added(cs)[i].id == i
  {
    if cs != [] {
      var init, last := cs[..|cs| - 1], cs[|cs| - 1];
      assert cs == init + [last];
      assert forall c :: c in cs <==> c in init || c == last;
      AddedAt(init, i);
    }
  }

  /** However the same changes are listed, the graph they build gives the same topological order. */
  lemma InsertionOrderIrrelevant(a: seq<Change>, b: seq<Change>, heads: set<Id>)
    requires forall x, y :: x in a && y in a && x.id == y.id ==> x == y
    requires forall c :: c in a <==> c in b
    ensures Added(a) == Added(b)
    ensures var (e, f) := (EdgesOf(Added(a)), EdgesOf(Added(b)));
            KahnOrder(e, Anc(e, heads)) == KahnOrder(f, Anc(f, heads))
  {
    forall i ensures i in Added(a) <==> i in Added(b) {
      AddedAt(a, i);
      AddedAt(b, i);
    }
    forall i | i in Added(a) ensures Added(a)[i] == Added(b)[i] {
      AddedAt(a, i);
      AddedAt(b, i);
    }
  }
}
