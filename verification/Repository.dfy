/** The repository handle and its operations (`src/store/repo.rs`). */
module Repository {
  import opened Base
  import opened Reach
  import opened Kahn
  import opened Cells
  import opened Algebra
  import opened History
  import opened Graph
  import opened Paths
  import opened Runs

  datatype Reason =
    | NoSuchView | MissingChange | ReplayError | Dirty | NoIdentity | MissingDependency | SemanticConflict

  datatype MergeOutcome = Merged(state: State) | Conflicted(pairs: seq<(Id, Id)>) | MergeFailed(reason: Reason)

  datatype SnapOutcome = Snapped(id: Id) | Nothing | SnapFailed(reason: Reason)

  /** The conflict written aside when a merge is refused. */
  datatype PendingConflict = PendingConflict(view: string, target: set<Id>, pairs: seq<(Id, Id)>)

  class Handle {
    /** The content-addressed store on disk. */
    var store: Store
    /** The changes loaded so far. */
    const graph: ChangeGraph
    var views: Views
    var current: string
    var identity: Option<Author>
    var conflict: Option<PendingConflict>
    const ignore: Ignore

    constructor (ignore: Ignore)
      ensures Valid() && Snapshot() == Repo(map[], map["main" := {}], "main")
      ensures fresh(graph) && this.ignore == ignore
    {
      var g := new ChangeGraph();
      store, graph, views, current := map[], g, map["main" := {}], "main";
      identity, conflict := None, None;
      this.ignore := ignore;
      new;
      assert EdgesOf(store) == map[];
      forall x ensures !Above(EdgesOf(store), x, x) {}
    }

    /** A handle on a repository found on disk; nothing is loaded yet. */
    constructor Open(store: Store, views: Views, current: string, ignore: Ignore)
      requires WellFormed(store)
      ensures Valid() && Snapshot() == Repo(store, views, current)
      ensures fresh(graph) && graph.nodes == map[] && this.ignore == ignore
    {
      var g := new ChangeGraph();
      this.store, graph, this.views, this.current := store, g, views, current;
      identity, conflict := None, None;
      this.ignore := ignore;
      new;
      assert EdgesOf(graph.nodes) == map[];
    }

    ghost function Snapshot(): Repo
      reads this
    {
      Repo(store, views, current)
    }

    /** The graph holds stored changes. */
    ghost predicate Loaded()
      reads this, graph
    {
      graph.Valid() && PartOf(graph.nodes, store)
    }

    /** With each change it holds, the graph holds its dependencies. */
    ghost predicate Valid()
      reads this, graph
    {
      graph.Valid() && ClosedPartOf(graph.nodes, store)
    }

    ghost function Behind(heads: set<Id>): set<Id>
      reads this
    {
      Ancestry(store, heads)
    }

    // ---- loading and replaying ---------------------------------------------

    /**
     Load the heads and their ancestors, stopping at what is loaded; fails exactly when one of the
     changes on the way is not in the store. On a closed graph these are all ancestors.
     */
    method HydrateHeads(heads: set<Id>) returns (ok: bool)
      requires Loaded()
      modifies graph
      ensures Loaded()
      ensures ok <==> Walked(EdgesOf(store), old(graph.nodes.Keys), heads) <= store.Keys
      ensures ok ==> graph.nodes.Keys == old(graph.nodes.Keys) + Walked(EdgesOf(store), old(graph.nodes.Keys), heads)
      ensures old(Valid()) ==> (ok <==> Complete(store, Behind(heads)))
      ensures old(Valid()) && ok ==> Valid() && graph.nodes.Keys == old(graph.nodes.Keys) + Behind(heads)
    {
      hide PartOf, ClosedPartOf, Complete, Ancestry, Hydrating, ChangeGraph.Valid, Reached, Walked, EdgesOf;
      ghost var nodes0, start := graph.nodes.Keys, graph.nodes;
      var queue := Listed(heads);
      HydrateStart(graph.nodes, store, heads, queue);
      while queue != []
        invariant graph.Valid() && Hydrating(nodes0, graph.nodes, store, heads, queue)
        decreases Reached(store, nodes0, heads) - graph.nodes.Keys, |queue|
      {
        var id := queue[0];
        HydrateTurn(nodes0, graph.nodes, store, heads, queue);
        queue := queue[1..];
        if id in graph.nodes {
          continue;
        }
        if id !in store {
          HydrateOnClosed(start, graph.nodes, store, heads);
          return false;
        }
        ghost var before := graph.nodes;
        ghost var rest := queue;
        var change := store[id];
        queue := Enqueue(queue, change.deps, graph.nodes.Keys);
        graph.AddChange(change);
        HydrateLoad(nodes0, before, store, heads, id, rest, queue);
      }
      HydrateDone(nodes0, graph.nodes, store, heads);
      HydrateOnClosed(start, graph.nodes, store, heads);
      return true;
    }

    /** Apply the listed changes in order to an empty state; stops at a missing or failing change. */
    method ReplayOrder(order: seq<Id>, withBlame: bool) returns (ok: bool, w: Workspace)
      requires Valid()
      ensures fresh(w)
      ensures ok <==> Elems(order) <= graph.nodes.Keys && Replay(store, order, ignore).Some?
      ensures ok ==> Replay(store, order, ignore) == Some(w.state)
      ensures ok && withBlame ==> w.blame.Some? && ReplayBlame(store, order, ignore) == w.blame
    {
      hide PartOf, ClosedPartOf, EdgesOf, Replay, ReplayBlame, ChangeGraph.Valid, Workspace.After, Run, Elems;
      w := new Workspace(withBlame);
      ReplayNothing(store, ignore);
      ElemsWithin(order, graph.nodes.Keys);
      for i := 0 to |order|
        invariant fresh(w) && (w.blame.Some? <==> withBlame)
        invariant forall j :: 0 <= j < i ==> order[j] in graph.nodes
        invariant Replay(store, order[..i], ignore) == Some(w.state)
        invariant withBlame ==> ReplayBlame(store, order[..i], ignore) == w.blame
      {
        var id := order[i];
        if id !in graph.nodes {
          return false, w;
        }
        LoadedChange(graph.nodes, store, id);
        ReplayNext(store, order, i, ignore);
        if withBlame {
          ReplayBlameNext(store, order, i, ignore);
        }
        ok := w.ApplyChange(graph.nodes[id], ignore);
        if !ok {
          return false, w;
        }
      }
      assert order[..|order|] == order;
      ok := true;
    }

    /** The state the heads materialise to, from the loaded graph. */
    method MaterializeHeads(heads: set<Id>) returns (r: Option<State>)
      requires Valid()
      ensures heads <= graph.nodes.Keys ==> r == Materialized(store, Behind(heads), ignore)
      ensures !(heads <= graph.nodes.Keys) ==> r == None
    {
      GraphOrder(graph.nodes, store, heads);
      assert graph.edges == EdgesOf(graph.nodes);
      hide PartOf, ClosedPartOf, Ancestry, Anc, EdgesOf, KahnOrder, Replay, ChangeGraph.Valid;
      var order := graph.TopologicalSort(heads);
      var ok, w := ReplayOrder(order, false);
      r := if ok then Some(w.state) else None;
    }

    // ---- views -------------------------------------------------------------

    method CreateView(name: string) returns (ok: bool)
      modifies this`views
      ensures if ok then CreateViewStep(old(Snapshot()), name, Snapshot()) else Snapshot() == old(Snapshot())
      ensures ok <==> old(current in views && name !in views)
      ensures ok ==> views == old(views)[name := old(views)[current]]
    {
      if current !in views {
        return false;
      }
      if name in views {
        return false;
      }
      views := views[name := views[current]];
      return true;
    }

    /** The current view exists and all its history is stored. */
    ghost predicate ViewComplete()
      reads this
    {
      current in views && Complete(store, Behind(views[current]))
    }

    /** What the current view materialises to. */
    ghost function ViewState(): Option<State>
      reads this
    {
      if current in views then Materialized(store, Behind(views[current]), ignore) else None
    }

    /** Load a head set and replay it. */
    method LoadState(heads: set<Id>) returns (r: Option<State>, reason: Reason)
      requires Valid()
      modifies graph
      ensures r.Some? ==> Valid() && heads <= graph.nodes.Keys && Complete(store, Behind(heads))
      ensures Complete(store, Behind(heads)) ==> r == Materialized(store, Behind(heads), ignore)
      ensures Loaded() && (r.None? ==> reason == if Complete(store, Behind(heads)) then ReplayError else MissingChange)
    {
      hide PartOf, ClosedPartOf, Complete, Ancestry, ChangeGraph.Valid, Walked, EdgesOf;
      ValidIsLoaded(graph.nodes, store);
      var ok := HydrateHeads(heads);
      if !ok {
        return None, MissingChange;
      }
      HeadsBehind(store, heads);
      r := MaterializeHeads(heads);
      reason := ReplayError;
      ValidIsLoaded(graph.nodes, store);
    }

    // ---- snap --------------------------------------------------------------

    /** No change the snap could record has the id of a different change, or an id somebody already names. */
    ghost predicate FreshHash(intent: string, hash: (set<Id>, seq<Atom>, string, Author) -> Id)
      reads this
    {
      current in views && identity.Some? ==>
        forall atoms :: NewId(store, Change(hash(views[current], atoms, intent, identity.value), views[current], atoms,
                                            intent, identity.value))
    }

    /**
     Record what `delta` finds different from the materialised state as a change on top of the
     current heads, which becomes the view's only head. `hash` is the content hash.
     */
    method Snap(delta: State -> seq<Atom>, intent: string, hash: (set<Id>, seq<Atom>, string, Author) -> Id)
      returns (r: SnapOutcome)
      requires Valid() && FreshHash(intent, hash)
      modifies this, graph
      ensures current == old(current) && identity == old(identity) && conflict == old(conflict)
      ensures !r.Snapped? ==> Snapshot() == old(Snapshot())
      ensures !r.SnapFailed? ==> Valid() && old(ViewState()).Some?
      ensures old(current !in views) ==> r == SnapFailed(NoSuchView)
      ensures old(current in views && !Complete(store, Behind(views[current]))) ==> r == SnapFailed(MissingChange)
      ensures old(ViewComplete() && ViewState().None?) ==> r == SnapFailed(ReplayError)
      ensures old(ViewComplete() && ViewState().Some?) && delta(old(ViewState()).value) == [] ==> r == Nothing
      ensures old(ViewComplete() && ViewState().Some? && identity.None?) && delta(old(ViewState()).value) != [] ==>
                r == SnapFailed(NoIdentity)
      ensures old(ViewComplete() && ViewState().Some? && identity.Some?) && delta(old(ViewState()).value) != [] ==>
                var (heads, atoms, author) := (old(views)[current], delta(old(ViewState()).value), identity.value);
                var id := hash(heads, atoms, intent, author);
                && r == Snapped(id) && views == old(views)[current := {id}]
                && store == old(store)[id := Change(id, heads, atoms, intent, author)]
      ensures r.Snapped? ==>
                r.id in store && store[r.id].id == r.id && SnapStep(old(Snapshot()), store[r.id], Snapshot())
      ensures r.Snapped? && r.id !in old(store) ==>
                ViewState() == Run(old(ViewState()).value, Writes(store[r.id], ignore))
    {
      hide PartOf, ClosedPartOf, Complete, Ancestry, ChangeGraph.Valid, Walked, EdgesOf, Materialized, Run;
      if current !in views {
        return SnapFailed(NoSuchView);
      }
      var heads := views[current];
      var state, reason := LoadState(heads);
      if state.None? {
        return SnapFailed(reason);
      }
      var atoms := delta(state.value);
      if atoms == [] {
        return Nothing;
      }
      if identity.None? {
        return SnapFailed(NoIdentity);
      }
      var author := identity.value;
      var change := Change(hash(heads, atoms, intent, author), heads, atoms, intent, author);
      LoadedIdsDetermine(graph.nodes, store, change);
      ghost var nodes, before := graph.nodes, store;
      store := store[change.id := change];
      graph.AddChange(change);
      views := views[current := {change.id}];
      RecordKeepsClosed(nodes, before, change);
      if change.id !in before {
        StoredAppends(nodes, before, change, ignore);
      }
      return Snapped(change.id);
    }

    // ---- merge -------------------------------------------------------------

    /** The pairs of the two deltas that do not commute, as the nested loops list them. */
    method FailingPairs(deltaA: set<Id>, deltaB: set<Id>) returns (pairs: seq<(Id, Id)>)
      requires deltaA + deltaB <= graph.nodes.Keys
      ensures forall a, b :: (a, b) in pairs <==>
                a in deltaA && b in deltaB && !Commutes(graph.nodes[a], graph.nodes[b])
    {
      pairs := [];
      var restA := deltaA;
      while restA != {}
        invariant restA <= deltaA
        invariant forall a, b :: (a, b) in pairs <==>
                    a in deltaA && a !in restA && b in deltaB && !Commutes(graph.nodes[a], graph.nodes[b])
      {
        var idA :| idA in restA;
        var restB := deltaB;
        while restB != {}
          invariant restB <= deltaB
          invariant forall a, b :: (a, b) in pairs <==>
                      && a in deltaA && (a !in restA || (a == idA && b !in restB)) && b in deltaB
                      && !Commutes(graph.nodes[a], graph.nodes[b])
        {
          var idB :| idB in restB;
          if !Commutes(graph.nodes[idA], graph.nodes[idB]) {
            assert forall p :: p in pairs + [(idA, idB)] <==> p in pairs || p == (idA, idB);
            pairs := pairs + [(idA, idB)];
          }
          restB := restB - {idB};
        }
        restA := restA - {idA};
      }
    }

    /** The pairs are exactly the pairs of the two exclusive deltas that fail the check. */
    ghost predicate ListsConflicts(pairs: seq<(Id, Id)>, target: set<Id>)
      requires current in views
      reads this
    {
      && Behind(views[current]) + Behind(target) <= store.Keys
      && forall x, y :: (x, y) in pairs <==>
           && x in Behind(views[current]) - Behind(target) && y in Behind(target) - Behind(views[current])
           && !Commutes(store[x], store[y])
    }

    /** The histories of the current view and of the heads are stored. */
    ghost predicate SidesComplete(target: set<Id>)
      reads this
    {
      ViewComplete() && Complete(store, Behind(target))
    }

    /** Some change that only the current view has does not commute with some change that only the heads have. */
    ghost predicate Clashes(target: set<Id>)
      requires SidesComplete(target)
      reads this
    {
      exists x, y :: x in Behind(views[current]) - Behind(target) && y in Behind(target) - Behind(views[current])
                  && !Commutes(store[x], store[y])
    }

    /**
     Merge a head set into the current view. `clean` is the check that the working directory matches
     the current state.
     */
    method MergeHeads(target: set<Id>, clean: State -> bool) returns (r: MergeOutcome)
      requires Valid()
      modifies this, graph
      ensures store == old(store) && current == old(current) && identity == old(identity)
      ensures !r.Conflicted? ==> conflict == old(conflict)
      ensures old(current !in views) ==> r == MergeFailed(NoSuchView) && views == old(views)
      ensures old(current in views) && !old(SidesComplete(target)) ==>
                r == MergeFailed(MissingChange) && views == old(views)
      ensures old(SidesComplete(target) && ViewState().None?) ==> r == MergeFailed(ReplayError) && views == old(views)
      ensures old(SidesComplete(target) && ViewState().Some?) && !clean(old(ViewState()).value) ==>
                r == MergeFailed(Dirty) && views == old(views)
      ensures r.Merged? || r.Conflicted? ==>
                old(SidesComplete(target) && ViewState().Some?) && clean(old(ViewState()).value)
      ensures old(SidesComplete(target) && ViewState().Some?) && clean(old(ViewState()).value) ==>
                if old(Clashes(target)) then r.Conflicted? && views == old(views)
                else && views == old(views)[current := old(views)[current] + target]
                     && r == if ViewState().None? then MergeFailed(ReplayError) else Merged(ViewState().value)
      ensures r.Merged? ==> Valid() && MergeStep(old(Snapshot()), target, Snapshot()) && ViewState() == Some(r.state)
      ensures r.Conflicted? ==> Valid() && current in views && views == old(views) && r.pairs != []
      ensures r.Conflicted? ==> ListsConflicts(r.pairs, target)
      ensures r.Conflicted? ==> conflict == Some(PendingConflict(current, target, r.pairs))
      ensures r.MergeFailed? && r.reason != ReplayError ==> Snapshot() == old(Snapshot())
      ensures r.MergeFailed? ==> Snapshot() == old(Snapshot()) || MergeStep(old(Snapshot()), target, Snapshot())
      ensures (&& current in old(views)
               && Sound(store, Behind(old(views)[current]), ignore) && Sound(store, Behind(target), ignore)
               && clean(Materialized(store, Behind(old(views)[current]), ignore).value))
          ==> if ConflictFree(store, Behind(old(views)[current]) + Behind(target)) then r.Merged? else r.Conflicted?
    {
      hide PartOf, ClosedPartOf, Complete, Ancestry, ChangeGraph.Valid, Walked, EdgesOf;
      hide Materialized, ConflictFree, Conflicts, Commutes;
      if current !in views {
        return MergeFailed(NoSuchView);
      }
      var heads := views[current];
      ValidIsLoaded(graph.nodes, store);
      var ok := HydrateHeads(heads);
      if !ok {
        return MergeFailed(MissingChange);
      }
      HeadsBehind(store, heads);
      ValidIsLoaded(graph.nodes, store);
      ok := HydrateHeads(target);
      if !ok {
        return MergeFailed(MissingChange);
      }
      HeadsBehind(store, target);
      var currentState := MaterializeHeads(heads);
      if currentState.None? {
        return MergeFailed(ReplayError);
      }
      if !clean(currentState.value) {
        return MergeFailed(Dirty);
      }
      var deltaA, deltaB := Deltas(heads, target);
      var pairs := FailingPairs(deltaA, deltaB);
      MergeVerdict(graph.nodes, store, heads, target, ignore);
      ClashIsConflict(store, Behind(heads), Behind(target));
      PairsAreConflicts(graph.nodes, store, pairs, Behind(heads), Behind(target));
      if pairs != [] {
        conflict := Some(PendingConflict(current, target, pairs));
        return Conflicted(pairs);
      }
      views := views[current := heads + target];
      var mergedState := MaterializeHeads(heads + target);
      if mergedState.None? {
        return MergeFailed(ReplayError);
      }
      return Merged(mergedState.value);
    }

    /** What each side has and the merge base's ancestry does not. */
    method Deltas(heads: set<Id>, target: set<Id>) returns (deltaA: set<Id>, deltaB: set<Id>)
      requires Valid() && heads + target <= graph.nodes.Keys
      ensures deltaA == Behind(heads) - Behind(target) && deltaB == Behind(target) - Behind(heads)
      ensures deltaA + deltaB <= graph.nodes.Keys
    {
      assert graph.edges == EdgesOf(graph.nodes);
      hide PartOf, ClosedPartOf, Ancestry, ChangeGraph.Valid, Anc, EdgesOf, Kahn.MergeBase;
      var lcaHeads := graph.MergeBase(heads, target);
      var ancestorsCurrent := graph.Ancestors(heads);
      var ancestorsTarget := graph.Ancestors(target);
      var ancestorsLca: set<Id> := {};
      if lcaHeads != {} {
        ancestorsLca := graph.Ancestors(lcaHeads);
      }
      deltaA := ancestorsCurrent - ancestorsLca;
      deltaB := ancestorsTarget - ancestorsLca;
      DeltasAre(graph.nodes, store, heads, target, ancestorsLca);
    }

    // ---- cherry-pick -------------------------------------------------------

    /** The changes the graph holds once the current view is loaded. */
    ghost function Known(): Store
      requires current in views
      reads this, graph
    {
      map i | i in store && i in graph.nodes.Keys + Behind(views[current]) :: store[i]
    }

    /** Picking the change goes through. */
    ghost predicate PickPasses(hash: Id)
      reads this, graph
    {
      && current in views && Complete(store, Behind(views[current]))
      && Pickable(store, views[current], hash, Known())
      && Materialized(store, Behind(views[current] + {hash}), ignore).Some?
    }

    /** Add an existing change to the current view's heads when it commutes with what the view has beside it. */
    method CherryPick(hash: Id) returns (r: Option<Reason>)
      requires Valid()
      modifies this, graph
      ensures store == old(store) && current == old(current) && identity == old(identity)
      ensures Snapshot() == old(Snapshot()) || (exists known :: PickStep(old(Snapshot()), hash, known, Snapshot()))
      ensures r.None? ==> Valid() && ViewState().Some?
      ensures r.None? ==> exists known :: PickStep(old(Snapshot()), hash, known, Snapshot())
      ensures r.None? <==> old(PickPasses(hash))
      ensures conflict == old(conflict)
      ensures old(current !in views) ==> r == Some(NoSuchView) && views == old(views)
      ensures old(current in views && !(ViewComplete() && hash in store)) ==>
                r == Some(MissingChange) && views == old(views)
      ensures old(ViewComplete() && hash in store && !(store[hash].deps <= Behind(views[current]))) ==>
                r == Some(MissingDependency) && views == old(views)
      ensures old(ViewComplete() && hash in store && store[hash].deps <= Behind(views[current])) ==>
                if !old(Pickable(store, views[current], hash, Known())) then
                  r == Some(SemanticConflict) && views == old(views)
                else
                  && views == old(views)[current := old(views)[current] + {hash}]
                  && r == if ViewState().None? then Some(ReplayError) else None
    {
      hide PartOf, ClosedPartOf, Complete, Ancestry, ChangeGraph.Valid, Walked, EdgesOf, Materialized, Commutes;
      if current !in views {
        return Some(NoSuchView);
      }
      var heads := views[current];
      ghost var nodes0 := graph.nodes;
      ValidIsLoaded(graph.nodes, store);
      var ok := HydrateHeads(heads);
      if !ok {
        return Some(MissingChange);
      }
      if hash !in store {
        return Some(MissingChange);
      }
      var change := store[hash];
      StoredId(graph.nodes, store, hash);
      HeadsBehind(store, heads);
      LoadedMembers(graph.nodes, store);
      ghost var known := graph.nodes;
      KnownIsLoaded(store, nodes0.Keys + Ancestry(store, heads), known);
      assert known == old(Known());
      var ancestorsV := LoadedAncestors(heads);
      if !(change.deps <= ancestorsV) {
        return Some(MissingDependency);
      }
      var ancestorsX := LoadedAncestors({hash});
      var exclusive := ancestorsV - ancestorsX;
      if exists x :: x in exclusive && !Commutes(change, graph.nodes[x]) {
        return Some(SemanticConflict);
      }
      LoadedIdsDetermine(graph.nodes, store, change);
      graph.AddChange(change);
      views := views[current := heads + {hash}];
      PickKeepsClosed(known, store, change);
      assert PickStep(old(Snapshot()), hash, known, Snapshot());
      var newState := MaterializeHeads(heads + {hash});
      if newState.None? {
        return Some(ReplayError);
      }
      return None;
    }

    /** Ancestors as far as the graph is loaded; all of them when the heads are. */
    method LoadedAncestors(heads: set<Id>) returns (r: set<Id>)
      requires Valid()
      ensures r == Ancestry(graph.nodes, heads)
      ensures heads <= graph.nodes.Keys ==> r == Behind(heads) && r <= graph.nodes.Keys
    {
      r := graph.Ancestors(heads);
      if heads <= graph.nodes.Keys {
        LoadedHistory(graph.nodes, store, heads);
      }
    }

    // ---- blame -------------------------------------------------------------

    /** The change that last wrote each live node of a file, listed by path. */
    method Blame(filepath: string) returns (r: Option<seq<(NodePath, Change)>>)
      requires Valid()
      modifies graph
      ensures r.Some? ==> Valid() && current in views && Complete(store, Behind(views[current])) && ViewState().Some?
      ensures r.Some? ==> IsBlameOf(store, r.value, filepath, KahnOrder(EdgesOf(store), Behind(views[current])), ignore)
      ensures current in views && Complete(store, Behind(views[current])) && ViewState().Some? ==> r.Some?
    {
      hide PartOf, ClosedPartOf, Complete, Ancestry, ChangeGraph.Valid, Replay, ReplayBlame, KahnOrder, EdgesOf, Walked;
      if current !in views {
        return None;
      }
      var heads := views[current];
      ValidIsLoaded(graph.nodes, store);
      var ok := HydrateHeads(heads);
      if !ok {
        return None;
      }
      HeadsBehind(store, heads);
      var order := LoadedOrder(heads);
      var w;
      ok, w := ReplayOrder(order, true);
      if !ok {
        return None;
      }
      BlamedAreStored(store, order, ignore);
      var entries := Entries(w.blame.value, filepath);
      entries := SortByPath(entries);
      return Some(entries);
    }

    /** The entries of a blame map in a file, in whatever order the map happens to give them. */
    method Entries(b: Blame, filepath: string) returns (entries: seq<(NodePath, Change)>)
      requires NamesIn(b, store.Keys)
      ensures forall k, c :: (k, c) in entries <==> k in b && Within(k, filepath) && store[b[k]] == c
      ensures forall i, j :: 0 <= i < j < |entries| ==> entries[i].0 != entries[j].0
    {
      entries := [];
      var rest := b.Keys;
      while rest != {}
        invariant rest <= b.Keys
        invariant forall k, c :: (k, c) in entries <==> k in b && k !in rest && Within(k, filepath) && store[b[k]] == c
        invariant forall i, j :: 0 <= i < j < |entries| ==> entries[i].0 != entries[j].0
      {
        var k :| k in rest;
        rest := rest - {k};
        if Within(k, filepath) {
          var e := (k, store[b[k]]);
          forall i | 0 <= i < |entries| ensures entries[i].0 != k {
            assert (entries[i].0, entries[i].1) in entries;
          }
          assert forall x :: x in entries + [e] <==> x in entries || x == e;
          entries := entries + [e];
        }
      }
    }

    method LoadedOrder(heads: set<Id>) returns (order: seq<Id>)
      requires Valid() && heads <= graph.nodes.Keys
      ensures order == KahnOrder(EdgesOf(store), Behind(heads)) && Elems(order) <= graph.nodes.Keys
      ensures forall x :: x in order ==> x in store && store[x].id == x
    {
      order := graph.TopologicalSort(heads);
      GraphOrder(graph.nodes, store, heads);
      forall x | x in order ensures x in store && store[x].id == x {
        assert x in Elems(order);
        LoadedChange(graph.nodes, store, x);
      }
    }
  }

  /**
   The list gives, path by path, exactly the nodes of the file that are live after the order, each with
   its blamed change.
   */
  ghost predicate IsBlameOf(store: Store, list: seq<(NodePath, Change)>, filepath: string, order: seq<Id>,
                            ignore: Ignore) {
    && Replay(store, order, ignore).Some? && ReplayBlame(store, order, ignore).Some?
    && Ascends(list)
    && forall k, c :: (k, c) in list <==>
         && k in ReplayBlame(store, order, ignore).value && |k| > 2 && k[0] == "file" && k[1] == filepath
         && Get(store, ReplayBlame(store, order, ignore).value[k]) == Some(c)
  }

  /** A node inside the file. */
  predicate Within(k: NodePath, filepath: string) {
    |k| > 2 && k[0] == "file" && k[1] == filepath
  }

  /**
   What is asked before a pick: the dependencies are in the view, and the change commutes with all of
   the view that is not among its ancestors, as far as `known` knows them.
   */
  ghost predicate Pickable(store: Store, heads: set<Id>, hash: Id, known: Store) {
    && hash in store && store[hash].deps <= Ancestry(store, heads)
    && forall x :: x in Ancestry(store, heads) - Ancestry(known, {hash}) ==>
         x in store && Commutes(store[hash], store[x])
  }

  lemma KnownIsLoaded(store: Store, keys: set<Id>, known: Store)
    requires known.Keys == keys && forall i :: i in known ==> i in store && known[i] == store[i]
    ensures known == map i | i in store && i in keys :: store[i]
  {}

  /**
   When a pick meets its promise. The promise is to accept a change exactly when it is pickable as far
   as the whole store knows its ancestors. The check keeps it exactly when the change is already loaded
   or has no dependencies: the ancestors of a change that is not loaded are not known, so its own
   dependencies count as conflicts.
   */
  lemma PickIsExact(store: Store, heads: set<Id>, hash: Id, known: Store)
    requires ClosedPartOf(known, store) && heads <= known.Keys
    ensures Pickable(store, heads, hash, known)
       <==> Pickable(store, heads, hash, store) && (hash in known || store[hash].deps == {})
  {
    if hash in store {
      if hash in known || store[hash].deps == {} {
        KnownOfPicked(store, known, hash);
        hide Ancestry, Commutes;
      } else {
        LoadedHistory(known, store, heads);
        UnloadedIsRefused(store, heads, hash, known);
      }
    }
  }

  /** For a change that is not in the view yet the promise is the union of the histories being conflict-free. */
  lemma PromiseIsConflictFree(store: Store, heads: set<Id>, hash: Id, ignore: Ignore)
    requires hash in store && hash !in Ancestry(store, heads)
    requires Sound(store, Ancestry(store, heads), ignore) && Sound(store, Ancestry(store, {hash}), ignore)
    ensures Pickable(store, heads, hash, store)
       <==> && store[hash].deps <= Ancestry(store, heads)
            && ConflictFree(store, Ancestry(store, heads) + Ancestry(store, {hash}))
  {
    hide Ancestry, Commutes, ConflictFree, Above, Sound, Materialized;
    var a, x := Ancestry(store, heads), Ancestry(store, {hash});
    if store[hash].deps <= a {
      PickedAncestors(store, heads, hash);
      NoneAbove(store, heads, hash);
      HeadsBehind(store, {hash});
      SoundParts(store, a, ignore);
      SoundParts(store, x, ignore);
      PickIffConflictFree(store, a, x, hash);
    }
  }

  /** An accepted pick of sound histories replays, whether or not the change was in the view. */
  lemma PickReplays(store: Store, heads: set<Id>, hash: Id, known: Store, ignore: Ignore)
    requires ClosedPartOf(known, store) && heads <= known.Keys && Pickable(store, heads, hash, known)
    requires Sound(store, Ancestry(store, heads), ignore) && Sound(store, Ancestry(store, {hash}), ignore)
    ensures Materialized(store, Ancestry(store, heads + {hash}), ignore).Some?
  {
    hide Ancestry, Commutes, ConflictFree, Above, Sound, Materialized, ClosedPartOf;
    var a, x := Ancestry(store, heads), Ancestry(store, {hash});
    PickIsExact(store, heads, hash, known);
    PickedAncestors(store, heads, hash);
    SoundParts(store, a, ignore);
    PickConflictFree(store, a, x, hash);
    ValidIsWellFormed(known, store);
    UnionIsSound(store, a, x, ignore);
    SoundParts(store, a + x, ignore);
    UnionAncestry(store, heads, hash);
  }

  lemma ValidIsWellFormed(nodes: Store, store: Store)
    requires ClosedPartOf(nodes, store)
    ensures WellFormed(store)
  {}

  lemma UnionAncestry(store: Store, heads: set<Id>, hash: Id)
    ensures Ancestry(store, heads + {hash}) == Ancestry(store, heads) + Ancestry(store, {hash})
  {
    AncUnion(EdgesOf(store), heads, {hash});
  }

  lemma SoundParts(store: Store, s: set<Id>, ignore: Ignore)
    requires Sound(store, s, ignore)
    ensures s <= store.Keys && ConflictFree(store, s) && Materialized(store, s, ignore).Some?
  {}

  lemma PickIffConflictFree(store: Store, a: set<Id>, x: set<Id>, hash: Id)
    requires a + x <= store.Keys && ConflictFree(store, a) && hash in x && hash !in a && x <= a + {hash}
    requires forall y :: y in a ==> !Above(EdgesOf(store), y, hash)
    requires forall y :: Above(EdgesOf(store), hash, y) ==> y in x
    requires forall y :: y in x && y != hash ==> Above(EdgesOf(store), hash, y)
    ensures (forall y :: y in a - x ==> y in store && Commutes(store[hash], store[y])) <==> ConflictFree(store, a + x)
  {
    hide Above, Commutes;
    if forall y :: y in a - x ==> y in store && Commutes(store[hash], store[y]) {
      PickConflictFree(store, a, x, hash);
    }
    if ConflictFree(store, a + x) {
      BesideCommutes(store, a, x, hash);
    }
  }

  lemma BesideCommutes(store: Store, a: set<Id>, x: set<Id>, hash: Id)
    requires a + x <= store.Keys && ConflictFree(store, a + x) && hash in x && hash !in a
    requires forall y :: y in a ==> !Above(EdgesOf(store), y, hash)
    requires forall y :: Above(EdgesOf(store), hash, y) ==> y in x
    ensures forall y :: y in a - x ==> Commutes(store[hash], store[y])
  {}

  /** Nothing in a view stands on a change outside it, and what a change stands on are its ancestors. */
  lemma NoneAbove(store: Store, heads: set<Id>, hash: Id)
    requires hash !in Ancestry(store, heads)
    ensures forall y :: y in Ancestry(store, heads) ==> !Above(EdgesOf(store), y, hash)
    ensures forall y :: Above(EdgesOf(store), hash, y) ==> y in Ancestry(store, {hash})
  {
    var e := EdgesOf(store);
    forall y | y in Ancestry(store, heads) ensures !Above(e, y, hash) {
      if Above(e, y, hash) {
        AboveReaches(e, y, hash);
        AncReaches(e, heads, y, hash);
      }
    }
    forall y | Above(e, hash, y) ensures y in Ancestry(store, {hash}) {
      AboveReaches(e, hash, y);
      AncOfOne(e, hash, y);
    }
  }

  /** The graph knows all ancestors of a change that is loaded or has no dependencies. */
  lemma KnownOfPicked(store: Store, known: Store, hash: Id)
    requires ClosedPartOf(known, store) && hash in store && (hash in known || store[hash].deps == {})
    ensures Ancestry(known, {hash}) == Ancestry(store, {hash})
  {
    if hash in known {
      LoadedHistory(known, store, {hash});
    } else {
      NoDepsNoAncestors(known, hash);
      NoDepsNoAncestors(store, hash);
    }
  }

  lemma NoDepsNoAncestors(store: Store, x: Id)
    requires x in store ==> store[x].deps == {}
    ensures Ancestry(store, {x}) == {x}
  {
    hide Anc;
    assert Closed(EdgesOf(store), {x});
    AncIsClosed(EdgesOf(store), {x});
    AncIsLeast(EdgesOf(store), {x}, {x});
  }

  /** A change that is not loaded and depends on something in the view is refused. */
  lemma UnloadedIsRefused(store: Store, heads: set<Id>, hash: Id, known: Store)
    requires WellFormed(store) && hash in store && hash !in known && hash !in Ancestry(store, heads)
    requires store[hash].deps != {}
    ensures !Pickable(store, heads, hash, known)
  {
    NoDepsNoAncestors(known, hash);
    var d :| d in store[hash].deps;
    if d in Ancestry(store, heads) && d in store {
      assert d in Ancestry(store, heads) - Ancestry(known, {hash});
      assert !Commutes(store[hash], store[d]);
    }
  }

  /** Two changes without atoms, the second on top of the first: on a fresh handle the pick is refused. */
  lemma FreshHandleRefuses(c: Change, d: Change, ignore: Ignore)
    requires c.id == 0 && c.deps == {} && c.atoms == [] && d.id == 1 && d.deps == {0} && d.atoms == []
    ensures var store := map[0 := c, 1 := d];
            && Inv(Repo(store, map["main" := {1}, "old" := {0}], "old"), ignore)
            && Ancestry(store, {0}) + Ancestry(store, {1}) <= store.Keys
            && store[1].deps <= Ancestry(store, {0}) && ConflictFree(store, Ancestry(store, {0}) + Ancestry(store, {1}))
            && Pickable(store, {0}, 1, store) && !Pickable(store, {0}, 1, map[0 := c])
  {
    hide Inv, Sound, ConflictFree, Ancestry;
    var store := map[0 := c, 1 := d];
    TwoSnaps(c, d, ignore);
    NoDepsNoAncestors(store, 0);
    StoredSound(Repo(store, map["main" := {1}, "old" := {0}], "old"), 1, ignore);
    OnTop(store, 0, 1);
    UnloadedIsRefused(store, {0}, 1, map[0 := c]);
  }

  lemma StoredSound(r: Repo, i: Id, ignore: Ignore)
    requires Inv(r, ignore) && i in r.store
    ensures WellFormed(r.store) && Ancestry(r.store, {i}) <= r.store.Keys
    ensures ConflictFree(r.store, Ancestry(r.store, {i}))
  {}

  lemma OnTop(store: Store, x: Id, y: Id)
    requires y in store && store[y].deps == {x} && Ancestry(store, {x}) == {x}
    ensures Ancestry(store, {x}) + Ancestry(store, {y}) == Ancestry(store, {y})
  {
    hide Ancestry;
    HeadsBehind(store, {y});
    AncestryHas(store, {y}, y);
    Absorbed(x, Ancestry(store, {y}), store[y].deps);
  }

  lemma Absorbed(x: Id, s: set<Id>, deps: set<Id>)
    requires deps == {x} && deps <= s
    ensures {x} + s == s
  {}

  lemma TwoSnaps(c: Change, d: Change, ignore: Ignore)
    requires c.id == 0 && c.deps == {} && c.atoms == [] && d.id == 1 && d.deps == {0} && d.atoms == []
    ensures Inv(Repo(map[0 := c, 1 := d], map["main" := {1}, "old" := {0}], "old"), ignore)
  {
    hide Inv;
    var one, two := map[0 := c], map[0 := c, 1 := d];
    var main := map["main" := {0}];
    var both := map["main" := {0}, "old" := {0}];
    var after := map["main" := {1}, "old" := {0}];
    InitInv(ignore);
    EmptySnap(Repo(map[], map["main" := {}], "main"), c, Repo(one, main, "main"), ignore);
    CreateKeepsInv(Repo(one, main, "main"), "old", Repo(one, both, "main"), ignore);
    EmptySnap(Repo(one, both, "main"), d, Repo(two, after, "main"), ignore);
    SwitchKeepsInv(Repo(two, after, "main"), "old", Repo(two, after, "old"), ignore);
  }

  lemma CreateKeepsInv(r: Repo, name: string, r': Repo, ignore: Ignore)
    requires Inv(r, ignore) && CreateViewStep(r, name, r')
    ensures Inv(r', ignore)
  {
    hide Inv;
    StepKeepsInv(r, CreateView(name), r', ignore);
  }

  lemma SwitchKeepsInv(r: Repo, name: string, r': Repo, ignore: Ignore)
    requires Inv(r, ignore) && SwitchStep(r, name, r')
    ensures Inv(r', ignore)
  {
    hide Inv;
    StepKeepsInv(r, Switch(name), r', ignore);
  }

  lemma EmptySnap(r: Repo, c: Change, r': Repo, ignore: Ignore)
    requires Inv(r, ignore) && SnapStep(r, c, r') && c.atoms == []
    ensures Inv(r', ignore)
  {
    EmptyApplies(r, c, ignore);
    hide Inv, AppliesTo, SnapStep;
    StepKeepsInv(r, Snap(c), r', ignore);
  }

  /** A change without atoms applies to any view that replays. */
  lemma EmptyApplies(r: Repo, c: Change, ignore: Ignore)
    requires Inv(r, ignore) && r.current in r.views && c.deps == r.views[r.current] && c.atoms == []
    ensures AppliesTo(r.store, c, ignore)
  {
    assert Writes(c, ignore) == [];
  }

  lemma SubgraphReaches(e: Edges, f: Edges, a: Id, b: Id)
    requires (forall x :: Deps(e, x) <= Deps(f, x)) && Reaches(e, a, b)
    ensures Reaches(f, a, b)
  {
    var p: seq<Id> :| IsPath(e, p) && p[0] == a && p[|p| - 1] == b;
    assert IsPath(f, p);
  }

  lemma SubgraphAcyclic(e: Edges, f: Edges)
    requires Acyclic(f) && forall x :: Deps(e, x) <= Deps(f, x)
    ensures Acyclic(e)
  {
    forall x, d | d in Deps(e, x) && Reaches(e, d, x) ensures Above(f, x, x) {
      SubgraphReaches(e, f, d, x);
    }
  }

  ghost predicate PartOf(nodes: Store, store: Store) {
    WellFormed(store) && Extends(nodes, store)
  }

  ghost predicate ClosedPartOf(nodes: Store, store: Store) {
    PartOf(nodes, store) && Complete(nodes, nodes.Keys)
  }

  /** A loaded part of the store that is closed under dependencies knows all there is to its heads. */
  lemma LoadedHistory(nodes: Store, store: Store, heads: set<Id>)
    requires ClosedPartOf(nodes, store) && heads <= nodes.Keys
    ensures Acyclic(EdgesOf(nodes))
    ensures Anc(EdgesOf(nodes), heads) == Ancestry(store, heads) && heads <= Ancestry(store, heads) <= nodes.Keys
    ensures Complete(store, Ancestry(store, heads))
    ensures KahnOrder(EdgesOf(nodes), Ancestry(store, heads)) == KahnOrder(EdgesOf(store), Ancestry(store, heads))
    ensures Linear(EdgesOf(store), Ancestry(store, heads), KahnOrder(EdgesOf(store), Ancestry(store, heads)))
  {
    LoadedAcyclic(nodes, store);
    LoadedAncestry(nodes, heads);
    hide Anc, EdgesOf, Acyclic, Extends, Linear, KahnOrder;
    AncestryExtends(nodes, store, heads);
    HistoryExtends(nodes, store, Ancestry(nodes, heads), (_, _) => false);
    KahnOrderLinear(EdgesOf(store), Ancestry(store, heads));
  }

  lemma LoadedAcyclic(nodes: Store, store: Store)
    requires WellFormed(store) && Extends(nodes, store)
    ensures Acyclic(EdgesOf(nodes))
  {
    hide Acyclic;
    SubgraphAcyclic(EdgesOf(nodes), EdgesOf(store));
  }

  lemma LoadedAncestry(nodes: Store, heads: set<Id>)
    requires Complete(nodes, nodes.Keys) && heads <= nodes.Keys
    ensures heads <= Ancestry(nodes, heads) <= nodes.Keys && Complete(nodes, Ancestry(nodes, heads))
  {
    AncIsClosed(EdgesOf(nodes), heads);
    AncIsLeast(EdgesOf(nodes), heads, nodes.Keys);
  }

  lemma LoadedChange(nodes: Store, store: Store, id: Id)
    requires ClosedPartOf(nodes, store) && id in nodes
    ensures id in store && nodes[id] == store[id] && store[id].id == id
  {}

  lemma ValidIsLoaded(nodes: Store, store: Store)
    requires ClosedPartOf(nodes, store)
    ensures PartOf(nodes, store)
  {}

  lemma HeadsBehind(store: Store, heads: set<Id>)
    ensures heads <= Ancestry(store, heads)
  {
    AncIsClosed(EdgesOf(store), heads);
  }

  lemma StoredId(nodes: Store, store: Store, id: Id)
    requires ClosedPartOf(nodes, store) && id in store
    ensures store[id].id == id
  {}

  lemma LoadedMembers(nodes: Store, store: Store)
    requires ClosedPartOf(nodes, store)
    ensures forall i :: i in nodes ==> i in store && nodes[i] == store[i]
  {}

  /** A change with a new id, or one the store already has, agrees with what is loaded under its id. */
  lemma LoadedIdsDetermine(nodes: Store, store: Store, c: Change)
    requires ClosedPartOf(nodes, store) && (c.id in store ==> store[c.id] == c)
    ensures c.id in nodes ==> nodes[c.id] == c
  {}

  lemma RecordKeepsClosed(nodes: Store, store: Store, c: Change)
    requires ClosedPartOf(nodes, store) && NewId(store, c) && c.deps <= nodes.Keys
    requires c.id !in store ==> Complete(store, Ancestry(store, c.deps))
    ensures ClosedPartOf(nodes[c.id := c], store[c.id := c])
  {
    AddKeepsClosed(nodes, c);
    if c.id in store {
      assert store[c.id := c] == store;
    } else {
      RecordExtends(store, c, store[c.id := c]);
      SnapOrder(store, c, store[c.id := c]);
    }
    hide WellFormed, Complete, NewId;
    AddKeepsExtends(nodes, store, c);
  }

  lemma AddKeepsExtends(nodes: Store, store: Store, c: Change)
    requires Extends(nodes, store)
    ensures Extends(nodes[c.id := c], store[c.id := c])
  {}

  lemma AddKeepsClosed(nodes: Store, c: Change)
    requires Complete(nodes, nodes.Keys) && c.deps <= nodes.Keys
    ensures Complete(nodes[c.id := c], nodes[c.id := c].Keys)
  {
    var nodes' := nodes[c.id := c];
    forall x | x in nodes' ensures Deps(EdgesOf(nodes'), x) <= nodes'.Keys {
      if x != c.id {
        assert Deps(EdgesOf(nodes), x) <= nodes.Keys;
      }
    }
  }

  lemma StoredAppends(nodes: Store, store: Store, c: Change, ignore: Ignore)
    requires ClosedPartOf(nodes, store) && c.id !in store && NewId(store, c)
    requires Complete(store, Ancestry(store, c.deps)) && Materialized(store, Ancestry(store, c.deps), ignore).Some?
    ensures Materialized(store[c.id := c], Ancestry(store[c.id := c], {c.id}), ignore)
         == Run(Materialized(store, Ancestry(store, c.deps), ignore).value, Writes(c, ignore))
  {
    RecordExtends(store, c, store[c.id := c]);
    SnapAppends(store, c, store[c.id := c], ignore);
  }

  lemma PickKeepsClosed(nodes: Store, store: Store, c: Change)
    requires ClosedPartOf(nodes, store) && c.id in store && store[c.id] == c && c.deps <= nodes.Keys
    ensures ClosedPartOf(nodes[c.id := c], store)
  {
    AddKeepsClosed(nodes, c);
  }

  /** In the loaded graph the ancestors of the merge base are the common ancestors. */
  lemma LcaAncestry(nodes: Store, store: Store, heads: set<Id>, target: set<Id>)
    requires ClosedPartOf(nodes, store) && heads + target <= nodes.Keys
    ensures var e := EdgesOf(nodes);
            && Anc(e, heads) == Ancestry(store, heads) <= nodes.Keys
            && Anc(e, target) == Ancestry(store, target) <= nodes.Keys
            && Anc(e, Kahn.MergeBase(e, heads, target)) == Ancestry(store, heads) * Ancestry(store, target)
            && Anc(e, {}) == {}
  {
    LoadedHistory(nodes, store, heads);
    LoadedHistory(nodes, store, target);
    MergeBaseSpans(EdgesOf(nodes), heads, target);
    AncIsLeast(EdgesOf(nodes), {}, {});
  }

  lemma DeltasAre(nodes: Store, store: Store, heads: set<Id>, target: set<Id>, common: set<Id>)
    requires ClosedPartOf(nodes, store) && heads + target <= nodes.Keys
    requires var lca := Kahn.MergeBase(EdgesOf(nodes), heads, target);
             common == if lca != {} then Anc(EdgesOf(nodes), lca) else {}
    ensures Anc(EdgesOf(nodes), heads) - common == Ancestry(store, heads) - Ancestry(store, target) <= nodes.Keys
    ensures Anc(EdgesOf(nodes), target) - common == Ancestry(store, target) - Ancestry(store, heads) <= nodes.Keys
  {
    LcaAncestry(nodes, store, heads, target);
    hide Ancestry, Anc, EdgesOf, Kahn.MergeBase, ClosedPartOf;
    MinusCommon(Ancestry(store, heads), Ancestry(store, target), common);
  }

  lemma MinusCommon(a: set<Id>, b: set<Id>, common: set<Id>)
    requires common == a * b || (a * b == {} && common == {})
    ensures a - common == a - b && b - common == b - a
  {}

  lemma PairsAreConflicts(nodes: Store, store: Store, pairs: seq<(Id, Id)>, a: set<Id>, b: set<Id>)
    requires Extends(nodes, store) && a + b <= nodes.Keys
    requires forall x, y :: (x, y) in pairs <==> x in a - b && y in b - a && !Commutes(nodes[x], nodes[y])
    ensures a + b <= store.Keys && Elems(pairs) == Conflicts(store, a, b)
    ensures pairs == [] <==> Conflicts(store, a, b) == {}
  {
    hide Commutes;
    forall p ensures p in Elems(pairs) <==> p in Conflicts(store, a, b) {
      assert p == (p.0, p.1);
    }
    assert pairs != [] ==> pairs[0] in Elems(pairs);
  }

  lemma ClashIsConflict(store: Store, a: set<Id>, b: set<Id>)
    requires a <= store.Keys && b <= store.Keys
    ensures Conflicts(store, a, b) != {}
       <==> exists x, y :: x in a - b && y in b - a && !Commutes(store[x], store[y])
  {
    hide Commutes;
    if x, y :| x in a - b && y in b - a && !Commutes(store[x], store[y]) {
      assert (x, y) in Conflicts(store, a, b);
    }
    if p :| p in Conflicts(store, a, b) {
      assert p == (p.0, p.1);
    }
  }

  /** With sound sides, an empty list of failing pairs means exactly that the union is sound. */
  lemma MergeVerdict(nodes: Store, store: Store, heads: set<Id>, target: set<Id>, ignore: Ignore)
    requires ClosedPartOf(nodes, store) && heads + target <= nodes.Keys
    ensures Ancestry(store, heads + target) == Ancestry(store, heads) + Ancestry(store, target)
    ensures Extends(nodes, store) && Ancestry(store, heads) + Ancestry(store, target) <= nodes.Keys
    ensures Complete(store, Ancestry(store, heads)) && Complete(store, Ancestry(store, target))
    ensures Sound(store, Ancestry(store, heads), ignore) && Sound(store, Ancestry(store, target), ignore)
        ==> (Conflicts(store, Ancestry(store, heads), Ancestry(store, target)) == {}) ==
            ConflictFree(store, Ancestry(store, heads + target))
    ensures Sound(store, Ancestry(store, heads), ignore) && Sound(store, Ancestry(store, target), ignore)
        && ConflictFree(store, Ancestry(store, heads) + Ancestry(store, target))
        ==> Materialized(store, Ancestry(store, heads + target), ignore).Some?
  {
    var a, b := Ancestry(store, heads), Ancestry(store, target);
    LoadedHistory(nodes, store, heads);
    LoadedHistory(nodes, store, target);
    AncUnion(EdgesOf(store), heads, target);
    hide Ancestry, Linear, KahnOrder, Acyclic, Closed;
    if Sound(store, a, ignore) && Sound(store, b, ignore) {
      AcceptanceIsExact(store, a, b);
      if ConflictFree(store, a + b) {
        UnionIsSound(store, a, b, ignore);
      }
    }
  }

  /** What a walk from the heads reaches that stops at the ids loaded before. */
  ghost function Reached(store: Store, nodes0: set<Id>, heads: set<Id>): set<Id> {
    Anc(Cut(EdgesOf(store), nodes0), heads)
  }

  /** What each turn of the loading loop keeps. */
  ghost predicate Hydrating(nodes0: set<Id>, nodes: Store, store: Store, heads: set<Id>, queue: seq<Id>) {
    && PartOf(nodes, store)
    && Elems(queue) <= Reached(store, nodes0, heads)
    && nodes0 <= nodes.Keys <= nodes0 + Reached(store, nodes0, heads)
    && heads <= nodes.Keys + Elems(queue)
    && forall x :: x in nodes && x !in nodes0 ==> nodes[x].deps <= nodes.Keys + Elems(queue)
  }

  lemma HydrateStart(nodes: Store, store: Store, heads: set<Id>, queue: seq<Id>)
    requires PartOf(nodes, store) && Elems(queue) == heads
    ensures Hydrating(nodes.Keys, nodes, store, heads, queue)
  {
    AncIsClosed(Cut(EdgesOf(store), nodes.Keys), heads);
  }

  lemma HydrateTurn(nodes0: set<Id>, nodes: Store, store: Store, heads: set<Id>, queue: seq<Id>)
    requires Hydrating(nodes0, nodes, store, heads, queue) && queue != []
    ensures PartOf(nodes, store)
    ensures queue[0] in nodes ==> Hydrating(nodes0, nodes, store, heads, queue[1..])
    ensures queue[0] !in nodes ==> Hydrating(nodes0, nodes, store, heads, queue[1..] + [queue[0]])
    ensures queue[0] !in nodes && queue[0] !in store ==> !(Walked(EdgesOf(store), nodes0, heads) <= store.Keys)
    ensures queue[0] in store ==> store[queue[0]].id == queue[0]
  {
    hide Anc, Cut, EdgesOf, PartOf;
    PopElems(queue);
    PushElems(queue[1..], queue[0]);
    PartOfNames(nodes, store);
    assert queue[0] in Elems(queue);
    if queue[0] !in nodes {
      assert queue[0] in Walked(EdgesOf(store), nodes0, heads);
    }
  }

  lemma PartOfNames(nodes: Store, store: Store)
    requires PartOf(nodes, store)
    ensures nodes.Keys <= store.Keys && forall i :: i in store ==> store[i].id == i
  {}

  lemma PartOfAdd(nodes: Store, store: Store, id: Id)
    requires PartOf(nodes, store) && id in store
    ensures PartOf(nodes[id := store[id]], store)
  {
    hide WellFormed;
  }

  lemma HydrateLoad(nodes0: set<Id>, nodes: Store, store: Store, heads: set<Id>, id: Id, rest: seq<Id>, queue: seq<Id>)
    requires Hydrating(nodes0, nodes, store, heads, rest + [id]) && id !in nodes && id in store
    requires Elems(queue) == Elems(rest) + (store[id].deps - nodes.Keys)
    ensures Hydrating(nodes0, nodes[id := store[id]], store, heads, queue)
    ensures Reached(store, nodes0, heads) - nodes[id := store[id]].Keys < Reached(store, nodes0, heads) - nodes.Keys
  {
    var all, nodes' := Reached(store, nodes0, heads), nodes[id := store[id]];
    PushElems(rest, id);
    ReachedHas(store, nodes0, heads, id);
    hide Reached, PartOf, Elems;
    PartOfAdd(nodes, store, id);
    LoadKeepsDeps(nodes0, nodes, id, store[id], Elems(rest), Elems(queue), nodes');
    LoadKeepsBounds(all, nodes.Keys, heads, id, store[id].deps, Elems(rest), Elems(queue), nodes'.Keys);
  }

  lemma ReachedHas(store: Store, nodes0: set<Id>, heads: set<Id>, id: Id)
    requires id in Reached(store, nodes0, heads) && id in store && id !in nodes0
    ensures store[id].deps <= Reached(store, nodes0, heads)
  {
    var e := Cut(EdgesOf(store), nodes0);
    AncIsClosed(e, heads);
    assert Deps(e, id) <= Anc(e, heads);
  }

  lemma AncestryHas(store: Store, heads: set<Id>, id: Id)
    requires id in Ancestry(store, heads) && id in store
    ensures store[id].deps <= Ancestry(store, heads)
  {
    AncIsClosed(EdgesOf(store), heads);
    assert Deps(EdgesOf(store), id) <= Ancestry(store, heads);
  }

  lemma LoadKeepsDeps(nodes0: set<Id>, nodes: Store, id: Id, c: Change, rest: set<Id>, queue: set<Id>, nodes': Store)
    requires forall x :: x in nodes && x !in nodes0 ==> nodes[x].deps <= nodes.Keys + (rest + {id})
    requires queue == rest + (c.deps - nodes.Keys) && nodes' == nodes[id := c]
    ensures forall x :: x in nodes' && x !in nodes0 ==> nodes'[x].deps <= nodes'.Keys + queue
    ensures nodes'.Keys == nodes.Keys + {id}
  {}

  lemma LoadKeepsBounds(all: set<Id>, keys: set<Id>, heads: set<Id>, id: Id, deps: set<Id>, rest: set<Id>,
                        queue: set<Id>,
                        keys': set<Id>)
    requires rest + {id} <= all && deps <= all && heads <= keys + (rest + {id}) && id !in keys
    requires queue == rest + (deps - keys) && keys' == keys + {id}
    ensures queue <= all && heads <= keys' + queue && all - keys' < all - keys
  {
    assert id in all - keys && id !in all - keys';
  }

  lemma HydrateDone(nodes0: set<Id>, nodes: Store, store: Store, heads: set<Id>)
    requires Hydrating(nodes0, nodes, store, heads, [])
    ensures PartOf(nodes, store) && Walked(EdgesOf(store), nodes0, heads) <= store.Keys
    ensures nodes.Keys == nodes0 + Walked(EdgesOf(store), nodes0, heads)
  {
    var e := EdgesOf(store);
    assert Elems<Id>([]) == {};
    forall x | x in nodes ensures Deps(Cut(e, nodes0), x) <= nodes.Keys {
      CutDeps(e, nodes0, x);
      assert nodes[x] == store[x];
    }
    AncIsLeast(Cut(e, nodes0), heads, nodes.Keys);
  }

  /** On a closed graph the walk is over all ancestors, and leaves the graph closed. */
  lemma HydrateOnClosed(nodes0: Store, nodes: Store, store: Store, heads: set<Id>)
    requires PartOf(nodes, store)
    ensures ClosedPartOf(nodes0, store) ==>
              (Complete(store, Ancestry(store, heads)) <==> Walked(EdgesOf(store), nodes0.Keys, heads) <= store.Keys)
    ensures ClosedPartOf(nodes0, store) && nodes.Keys == nodes0.Keys + Walked(EdgesOf(store), nodes0.Keys, heads) ==>
              ClosedPartOf(nodes, store) && nodes.Keys == nodes0.Keys + Ancestry(store, heads)
  {
    hide PartOf, ClosedPartOf, Complete, Ancestry, Walked, EdgesOf;
    if ClosedPartOf(nodes0, store) {
      AllWalked(nodes0, store, heads);
      if nodes.Keys == nodes0.Keys + Walked(EdgesOf(store), nodes0.Keys, heads) {
        ClosedInGraph(nodes, store);
      }
    }
  }

  lemma AllWalked(nodes0: Store, store: Store, heads: set<Id>)
    requires ClosedPartOf(nodes0, store)
    ensures var w := Walked(EdgesOf(store), nodes0.Keys, heads);
            && (Complete(store, Ancestry(store, heads)) <==> w <= store.Keys)
            && nodes0.Keys + w == nodes0.Keys + Ancestry(store, heads)
            && Closed(EdgesOf(store), nodes0.Keys + w)
  {
    ClosedInStore(nodes0, store);
    WalkedIsAll(EdgesOf(store), nodes0.Keys, heads);
    AncIsClosed(EdgesOf(store), heads);
    hide Anc, Walked, EdgesOf, ClosedPartOf, Closed;
    UnionClosed(EdgesOf(store), nodes0.Keys, Ancestry(store, heads));
    SameMissing(Ancestry(store, heads), nodes0.Keys, store.Keys);
  }

  lemma SameMissing(a: set<Id>, known: set<Id>, keys: set<Id>)
    requires known <= keys
    ensures known + (a - known) == known + a && (a <= keys <==> a - known <= keys)
  {}

  lemma UnionClosed(e: Edges, a: set<Id>, b: set<Id>)
    requires Closed(e, a) && Closed(e, b)
    ensures Closed(e, a + b)
  {}

  lemma ClosedInStore(nodes: Store, store: Store)
    requires ClosedPartOf(nodes, store)
    ensures Closed(EdgesOf(store), nodes.Keys) && nodes.Keys <= store.Keys
  {
    forall x | x in nodes ensures Deps(EdgesOf(store), x) <= nodes.Keys {
      assert Deps(EdgesOf(nodes), x) <= nodes.Keys;
    }
  }

  lemma ClosedInGraph(nodes: Store, store: Store)
    requires PartOf(nodes, store) && Closed(EdgesOf(store), nodes.Keys)
    ensures ClosedPartOf(nodes, store)
  {
    forall x | x in nodes ensures Deps(EdgesOf(nodes), x) <= nodes.Keys {
      assert Deps(EdgesOf(nodes), x) == Deps(EdgesOf(store), x);
    }
  }

  /** The order of the loaded graph is that of the store, or it shows an id that is not loaded. */
  lemma GraphOrder(nodes: Store, store: Store, heads: set<Id>)
    requires ClosedPartOf(nodes, store)
    ensures var order := KahnOrder(EdgesOf(nodes), Anc(EdgesOf(nodes), heads));
            && heads <= Elems(order)
            && (heads <= nodes.Keys ==>
                  Elems(order) <= nodes.Keys && order == KahnOrder(EdgesOf(store), Ancestry(store, heads)))
  {
    SubgraphAcyclic(EdgesOf(nodes), EdgesOf(store));
    AncIsClosed(EdgesOf(nodes), heads);
    KahnOrderLinear(EdgesOf(nodes), Anc(EdgesOf(nodes), heads));
    if heads <= nodes.Keys {
      LoadedHistory(nodes, store, heads);
    }
  }

  lemma ReplayNext(store: Store, order: seq<Id>, i: nat, ignore: Ignore)
    requires i < |order| && order[i] in store && store[order[i]].id == order[i]
    requires Replay(store, order[..i], ignore).Some?
    ensures Replay(store, order[..i + 1], ignore)
         == Run(Replay(store, order[..i], ignore).value, Writes(store[order[i]], ignore))
    ensures Replay(store, order[..i + 1], ignore).None? ==> Replay(store, order, ignore).None?
  {
    assert order[..i + 1] == order[..i] + [order[i]];
    ReplaySnoc(store, order[..i], store[order[i]], ignore);
    if Replay(store, order[..i + 1], ignore).None? {
      ReplayStuck(store, order, i + 1, ignore);
    }
  }

  lemma ReplayNothing(store: Store, ignore: Ignore)
    ensures Replay(store, [], ignore) == Some(map[]) && ReplayBlame(store, [], ignore) == Some(map[])
  {}

  lemma ElemsWithin(order: seq<Id>, s: set<Id>)
    ensures Elems(order) <= s <==> forall j :: 0 <= j < |order| ==> order[j] in s
  {
    assert forall j :: 0 <= j < |order| ==> order[j] in Elems(order);
  }

  lemma ReplayBlameNext(store: Store, order: seq<Id>, i: nat, ignore: Ignore)
    requires i < |order| && order[i] in store && store[order[i]].id == order[i]
    requires ReplayBlame(store, order[..i], ignore).Some?
    ensures ReplayBlame(store, order[..i + 1], ignore)
         == Run(ReplayBlame(store, order[..i], ignore).value, Marks(store[order[i]], ignore))
  {
    assert order[..i + 1] == order[..i] + [order[i]];
    ReplayBlameSnoc(store, order[..i], store[order[i]], ignore);
  }

  lemma {:induction false} ReplayStuck(store: Store, order: seq<Id>, n: nat, ignore: Ignore)
    requires n <= |order| && Replay(store, order[..n], ignore).None?
    ensures Replay(store, order, ignore).None?
    decreases |order|
  {
    if n < |order| {
      var init, f := order[..|order| - 1], WritesIn(store, ignore);
      assert init[..n] == order[..n];
      ReplayStuck(store, init, n, ignore);
      RunConcat(map[], Flat(f, init), f(order[|order| - 1]));
    } else {
      assert order[..n] == order;
    }
  }

  lemma ReplayBlameSnoc(store: Store, order: seq<Id>, c: Change, ignore: Ignore)
    requires c.id in store && store[c.id] == c
    ensures ReplayBlame(store, order + [c.id], ignore)
         == match ReplayBlame(store, order, ignore) case None => None case Some(b) => Run(b, Marks(c, ignore))
  {
    var g := MarksIn(store, ignore);
    assert (order + [c.id])[..|order|] == order;
    RunConcat(map[], Flat(g, order), g(c.id));
  }

  /** Everything blame names is in the store. */
  lemma {:induction false} BlamedAreStored(store: Store, order: seq<Id>, ignore: Ignore)
    requires forall x :: x in order ==> x in store && store[x].id == x
    requires ReplayBlame(store, order, ignore).Some?
    ensures NamesIn(ReplayBlame(store, order, ignore).value, store.Keys)
  {
    if order != [] {
      var init, last := order[..|order| - 1], order[|order| - 1];
      assert order == init + [last];
      ReplayBlameSnoc(store, init, store[last], ignore);
      hide ReplayBlame, Marks, Run;
      BlamedAreStored(store, init, ignore);
      MarksNameTheChange(store[last], ignore, ReplayBlame(store, init, ignore).value, store.Keys);
    }
  }

  ghost predicate NamesIn(b: Blame, ids: set<Id>) {
    forall k :: k in b ==> b[k] in ids
  }

  lemma MarksNameTheChange(c: Change, ignore: Ignore, b: Blame, ids: set<Id>)
    requires NamesIn(b, ids) && c.id in ids && Run(b, Marks(c, ignore)).Some?
    ensures NamesIn(Run(b, Marks(c, ignore)).value, ids)
  {
    var ms := Marks(c, ignore);
    assert ms[..|ms|] == ms;
    MarksNameTheChangeUpTo(c, ignore, b, |c.atoms|);
  }

  lemma {:induction false} MarksNameTheChangeUpTo(c: Change, ignore: Ignore, b: Blame, n: nat)
    requires n <= |c.atoms| && Run(b, Marks(c, ignore)[..n]).Some?
    ensures var m := Run(b, Marks(c, ignore)[..n]).value;
            forall k :: k in m ==> m[k] == c.id || (k in b && m[k] == b[k])
  {
    var ms := Marks(c, ignore);
    if n > 0 {
      assert ms[..n] == ms[..n - 1] + [ms[n - 1]];
      RunConcat(b, ms[..n - 1], [ms[n - 1]]);
      MarksNameTheChangeUpTo(c, ignore, b, n - 1);
      RunSnoc(b, ms, n - 1);
    }
  }
}
