/** Fetching a remote view by a bounded breadth-first search (`src/network/sync.rs`). */
module Fetch {
  import opened Base
  import opened Reach
  import opened Algebra
  import opened History
  import opened Graph
  import opened Runs

  /** The ids name the changes they are stored under. */
  ghost predicate Named(store: Store) {
    forall i :: i in store ==> store[i].id == i
  }

  /** Two stores hold the same change under a common id. */
  ghost predicate SameIds(a: Store, b: Store) {
    forall i :: i in a && i in b ==> a[i] == b[i]
  }

  ghost predicate DepsClosed(store: Store) {
    forall i :: i in store ==> store[i].deps <= store.Keys
  }

  /** What both sides hold together. */
  ghost function Joint(local: Store, remote: Store): Store {
    remote + local
  }

  /**
   The receiving side: its store on disk and the changes it has loaded. Unless the disk is reliable every
   write may fail.
   */
  class Local {
    const reliable: bool
    var store: Store
    const graph: ChangeGraph

    constructor (store: Store, reliable: bool)
      ensures this.store == store && this.reliable == reliable && fresh(graph) && graph.Valid() && graph.nodes == map[]
    {
      this.store, this.reliable := store, reliable;
      graph := new ChangeGraph();
    }

    /** Whether the disk happens to take a write. */
    method Works() returns (b: bool) {
      b := *;
    }

    method WriteChange(c: Change) returns (ok: bool)
      modifies this`store
      ensures store == if ok then old(store)[c.id := c] else old(store)
      ensures reliable ==> ok
    {
      var works := Works();
      ok := reliable || works;
      if ok {
        store := store[c.id := c];
      }
    }

    ghost predicate Valid()
      reads this, graph
    {
      graph.Valid() && Named(store) && Extends(graph.nodes, store)
    }
  }

  /** What the walk can find: it stops at what the local store had. */
  ghost function Findable(store0: Store, remote: Store, heads: set<Id>): set<Id> {
    Anc(Cut(EdgesOf(Joint(store0, remote)), store0.Keys), heads)
  }

  /** What the local store misses of the heads' history, as far as the walk gets. */
  ghost function Missing(store0: Store, remote: Store, heads: set<Id>): set<Id> {
    Walked(EdgesOf(Joint(store0, remote)), store0.Keys, heads)
  }

  /** What each turn of the loop keeps: what was added, where the walk has been and what it still owes. */
  ghost predicate Fetching(store0: Store, store: Store, remote: Store, heads: set<Id>,
                           visited: set<Id>, queue: seq<Id>, asked: seq<Id>) {
    && Named(store) && Extends(store0, store) && Extends(store, Joint(store0, remote))
    && store.Keys - store0.Keys == Elems(asked) && NoDup(asked)
    && Elems(asked) <= visited <= store.Keys
    && visited + Elems(queue) <= Findable(store0, remote, heads)
    && heads <= visited + Elems(queue)
    && (forall i :: i in store && i !in store0 ==> store[i].deps <= visited + Elems(queue))
  }

  /**
   Fetch what the local store misses of a remote view. A change that is already in the local store ends
   the walk there, which is right when that store is closed. `asked` lists the ids asked of the remote
   store.
   */
  method FetchLocal(local: Local, remote: Store, remoteViews: Views, viewName: string)
    returns (r: Option<set<Id>>, asked: seq<Id>)
    requires local.Valid() && Named(remote) && SameIds(local.store, remote)
    modifies local, local.graph
    ensures local.Valid() && Extends(old(local.store), local.store) && NoDup(asked)
    ensures forall i :: i in local.store && i !in old(local.store) ==> i in remote && local.store[i] == remote[i]
    ensures viewName !in remoteViews ==> r.None? && asked == []
    ensures viewName in remoteViews ==> Elems(asked) <= Missing(old(local.store), remote, remoteViews[viewName])
    ensures r.Some? ==>
              && viewName in remoteViews && r.value == remoteViews[viewName]
              && Elems(asked) == Missing(old(local.store), remote, r.value) <= remote.Keys
              && local.store.Keys == old(local.store.Keys) + Elems(asked)
    ensures (&& local.reliable && viewName in remoteViews
             && Missing(old(local.store), remote, remoteViews[viewName]) <= remote.Keys) ==> r.Some?
    ensures old(DepsClosed(local.store)) && r.Some? ==>
              DepsClosed(local.store) && Complete(local.store, Ancestry(local.store, r.value))
  {
    hide Ancestry, Complete, Fetching, ChangeGraph.Valid, Joint, Missing, Findable, DepsClosed, SameIds;
    asked := [];
    if viewName !in remoteViews {
      return None, asked;
    }
    ghost var store0 := local.store;
    var heads := remoteViews[viewName];
    var queue := Listed(heads);
    var visited: set<Id> := {};
    FetchStart(store0, remote, heads, queue);
    while queue != []
      invariant local.Valid() && Fetching(store0, local.store, remote, heads, visited, queue, asked)
      decreases Findable(store0, remote, heads) - visited, |queue|
    {
      var id := queue[0];
      FetchTurn(store0, local.store, remote, heads, visited, queue, asked);
      queue := queue[1..];
      if id in visited {
        continue;
      }
      ghost var visited0, rest := visited, queue;
      visited := visited + {id};
      if id in local.store {
        if id !in local.graph.nodes {
          local.graph.AddChange(local.store[id]);
        }
        continue;
      }
      asked := asked + [id];
      assert asked[..|asked| - 1] + [id] == asked;
      FetchFails(store0, local.store, remote, heads, visited0, rest, asked[..|asked| - 1], id);
      if id !in remote {
        return None, asked;
      }
      var change := remote[id];
      ghost var before := local.store;
      var ok := local.WriteChange(change);
      if !ok {
        return None, asked;
      }
      queue := Enqueue(queue, change.deps, visited);
      local.graph.AddChange(change);
      FetchAdds(store0, before, remote, heads, visited0, rest, asked[..|asked| - 1], id, queue);
    }
    FetchDone(store0, local.store, remote, heads, visited, asked);
    if DepsClosed(store0) {
      FetchCloses(store0, local.store, remote, heads);
    }
    r := Some(heads);
  }

  lemma FetchStart(store: Store, remote: Store, heads: set<Id>, queue: seq<Id>)
    requires Named(store) && SameIds(store, remote) && Elems(queue) == heads
    ensures Fetching(store, store, remote, heads, {}, queue, [])
  {
    AncIsClosed(Cut(EdgesOf(Joint(store, remote)), store.Keys), heads);
    hide Anc, Cut, EdgesOf;
    assert Elems<Id>([]) == {};
    assert Extends(store, Joint(store, remote));
  }

  lemma FindableDeps(store0: Store, remote: Store, heads: set<Id>, id: Id)
    requires id in Findable(store0, remote, heads) && id in remote && id !in store0
    ensures remote[id].deps <= Findable(store0, remote, heads)
  {
    var e := Cut(EdgesOf(Joint(store0, remote)), store0.Keys);
    AncIsClosed(e, heads);
    assert Deps(e, id) <= Anc(e, heads);
  }

  lemma FetchTurn(store0: Store, store: Store, remote: Store, heads: set<Id>, visited: set<Id>, queue: seq<Id>,
                  asked: seq<Id>)
    requires Fetching(store0, store, remote, heads, visited, queue, asked) && queue != []
    ensures queue[0] in visited ==> Fetching(store0, store, remote, heads, visited, queue[1..], asked)
    ensures queue[0] in store ==> Fetching(store0, store, remote, heads, visited + {queue[0]}, queue[1..], asked)
    ensures queue[0] !in visited ==>
              Findable(store0, remote, heads) - (visited + {queue[0]}) < Findable(store0, remote, heads) - visited
    ensures queue[0] !in store ==> Fetching(store0, store, remote, heads, visited, [queue[0]] + queue[1..], asked)
  {
    hide Findable;
    PopElems(queue);
    assert [queue[0]] + queue[1..] == queue;
    var all := Findable(store0, remote, heads);
    assert queue[0] in all;
    assert queue[0] !in visited ==> queue[0] in all - visited && queue[0] !in all - (visited + {queue[0]});
  }

  /** What holds when the walk ends at an id that could not be read or written. */
  lemma FetchFails(store0: Store, store: Store, remote: Store, heads: set<Id>, visited: set<Id>, rest: seq<Id>,
                   asked: seq<Id>, id: Id)
    requires Fetching(store0, store, remote, heads, visited, [id] + rest, asked) && id !in store
    ensures id !in remote ==> !(Missing(store0, remote, heads) <= remote.Keys)
    ensures Named(store) && Extends(store0, store) && NoDup(asked + [id])
    ensures Elems(asked + [id]) <= Missing(store0, remote, heads)
    ensures forall i :: i in store && i !in store0 ==> i in remote && store[i] == remote[i]
  {
    assert ([id] + rest)[0] == id && id in [id] + rest && id in Elems([id] + rest);
    PushElems(asked, id);
    assert id !in Elems(asked);
    hide Anc, Cut, EdgesOf;
    NoDupSnoc(asked, id);
    AddedFromRemote(store0, store, remote);
    KeysExtend(store0, store);
    assert Elems(asked) + {id} <= Missing(store0, remote, heads);
  }

  lemma AddedFromRemote(store0: Store, store: Store, remote: Store)
    requires Extends(store, Joint(store0, remote))
    ensures forall i :: i in store && i !in store0 ==> i in remote && store[i] == remote[i]
  {}

  lemma FetchAdds(store0: Store, store: Store, remote: Store, heads: set<Id>, visited: set<Id>, rest: seq<Id>,
                  asked: seq<Id>, id: Id, queue: seq<Id>)
    requires Fetching(store0, store, remote, heads, visited, [id] + rest, asked)
    requires id !in store && id in remote && Named(remote)
    requires Elems(queue) == Elems(rest) + (remote[id].deps - (visited + {id}))
    ensures Fetching(store0, store[id := remote[id]], remote, heads, visited + {id}, queue, asked + [id])
  {
    var store' := store[id := remote[id]];
    PopElems([id] + rest);
    assert ([id] + rest)[1..] == rest;
    PushElems(asked, id);
    AddKeepsExtends(store0, store, remote, id, store');
    FindableDeps(store0, remote, heads, id);
    hide Findable, Joint, Elems, Extends;
    NoDupSnoc(asked, id);
    AddKeepsOwed(store0, store, id, remote[id], visited, Elems(rest), Elems(queue), Elems([id] + rest), store');
    AddKeepsBounds(store0.Keys, store.Keys, Findable(store0, remote, heads), heads, visited, id, remote[id].deps,
                   Elems(rest), Elems(queue), Elems(asked));
  }

  lemma AddKeepsExtends(store0: Store, store: Store, remote: Store, id: Id, store': Store)
    requires Extends(store0, store) && Extends(store, Joint(store0, remote)) && Named(store) && Named(remote)
    requires id !in store && id in remote && store' == store[id := remote[id]]
    ensures Extends(store0, store') && Extends(store', Joint(store0, remote)) && Named(store')
    ensures id !in store0 && id in Joint(store0, remote) && Joint(store0, remote)[id] == remote[id]
    ensures store'.Keys == store.Keys + {id}
  {
    assert id !in store0;
  }

  lemma AddKeepsBounds(keys0: set<Id>, keys: set<Id>, all: set<Id>, heads: set<Id>, visited: set<Id>, id: Id,
                       deps: set<Id>,
                       rest: set<Id>, queue: set<Id>, asked: set<Id>)
    requires keys - keys0 == asked <= visited <= keys && id !in keys && id !in keys0
    requires visited + ({id} + rest) <= all && heads <= visited + ({id} + rest) && deps <= all
    requires queue == rest + (deps - (visited + {id}))
    ensures keys + {id} - keys0 == asked + {id} <= visited + {id} <= keys + {id}
    ensures visited + {id} + queue <= all && heads <= visited + {id} + queue && id !in asked
  {}

  lemma NoDupSnoc(s: seq<Id>, x: Id)
    requires NoDup(s) && x !in Elems(s)
    ensures NoDup(s + [x])
  {
    assert forall i :: 0 <= i < |s| ==> s[i] in Elems(s);
  }

  lemma AddKeepsOwed(store0: Store, store: Store, id: Id, c: Change, visited: set<Id>, rest: set<Id>, queue: set<Id>,
                     queue0: set<Id>, store': Store)
    requires forall i :: i in store && i !in store0 ==> store[i].deps <= visited + queue0
    requires queue0 == {id} + rest && queue == rest + (c.deps - (visited + {id}))
    requires store' == store[id := c]
    ensures forall i :: i in store' && i !in store0 ==> store'[i].deps <= visited + {id} + queue
  {}

  lemma FetchDone(store0: Store, store: Store, remote: Store, heads: set<Id>, visited: set<Id>, asked: seq<Id>)
    requires Fetching(store0, store, remote, heads, visited, [], asked)
    ensures Named(store) && Extends(store0, store) && NoDup(asked)
    ensures Elems(asked) == Missing(store0, remote, heads) <= remote.Keys
    ensures store.Keys == store0.Keys + Elems(asked)
    ensures forall i :: i in store && i !in store0 ==> i in remote && store[i] == remote[i]
  {
    assert Elems<Id>([]) == {};
    AddedFromRemote(store0, store, remote);
    KeysExtend(store0, store);
    AllVisited(store0, store, remote, heads, visited, asked);
    hide Joint, Elems, Findable, Anc, Cut, EdgesOf;
    VisitedIsAsked(store0.Keys, store.Keys, visited, Elems(asked), Missing(store0, remote, heads), remote.Keys);
  }

  lemma AllVisited(store0: Store, store: Store, remote: Store, heads: set<Id>, visited: set<Id>, asked: seq<Id>)
    requires Fetching(store0, store, remote, heads, visited, [], asked)
    ensures Findable(store0, remote, heads) == visited && Missing(store0, remote, heads) == visited - store0.Keys
  {
    var e := EdgesOf(Joint(store0, remote));
    assert Elems<Id>([]) == {};
    forall x | x in visited ensures Deps(Cut(e, store0.Keys), x) <= visited {
      CutDeps(e, store0.Keys, x);
      assert x in store && store[x] == Joint(store0, remote)[x];
    }
    AncIsLeast(Cut(e, store0.Keys), heads, visited);
  }

  lemma VisitedIsAsked(keys0: set<Id>, keys: set<Id>, visited: set<Id>, asked: set<Id>, missing: set<Id>,
                       remote: set<Id>)
    requires keys - keys0 == asked <= visited <= keys && missing == visited - keys0 && keys0 <= keys
    requires forall i :: i in keys && i !in keys0 ==> i in remote
    ensures asked == missing <= remote && keys == keys0 + asked
  {}

  lemma KeysExtend(store: Store, store': Store)
    requires Extends(store, store')
    ensures store.Keys <= store'.Keys
  {}

  /** From a closed store the fetched one is closed, and complete for the heads. */
  lemma FetchCloses(store0: Store, store: Store, remote: Store, heads: set<Id>)
    requires DepsClosed(store0) && Extends(store0, store)
    requires store.Keys == store0.Keys + Missing(store0, remote, heads)
    requires forall i :: i in store && i !in store0 ==> i in remote && store[i] == remote[i]
    ensures DepsClosed(store) && Complete(store, Ancestry(store, heads))
  {
    var e := EdgesOf(Joint(store0, remote));
    var found := Anc(Cut(e, store0.Keys), heads);
    AncIsClosed(Cut(e, store0.Keys), heads);
    forall i | i in store ensures store[i].deps <= store.Keys {
      if i !in store0 {
        CutDeps(e, store0.Keys, i);
        assert Deps(Cut(e, store0.Keys), i) <= found;
      }
    }
    ClosedStore(store, heads);
  }

  lemma ClosedStore(store: Store, heads: set<Id>)
    requires DepsClosed(store) && heads <= store.Keys
    ensures Complete(store, Ancestry(store, heads))
  {
    var e := EdgesOf(store);
    assert Closed(e, store.Keys);
    AncIsLeast(e, heads, store.Keys);
    AncIsClosed(e, heads);
  }

  /**
   From a closed store, nothing that is missing is out of reach exactly when all ancestors are on one
   of the sides.
   */
  lemma FetchableIff(store0: Store, remote: Store, heads: set<Id>)
    requires DepsClosed(store0) && SameIds(store0, remote)
    ensures Missing(store0, remote, heads) <= remote.Keys
       <==> Complete(Joint(store0, remote), Ancestry(Joint(store0, remote), heads))
    ensures Missing(store0, remote, heads) == Ancestry(Joint(store0, remote), heads) - store0.Keys
  {
    var joint := Joint(store0, remote);
    var e := EdgesOf(joint);
    assert Closed(e, store0.Keys);
    WalkedIsAll(e, store0.Keys, heads);
    AncIsClosed(e, heads);
    assert joint.Keys == store0.Keys + remote.Keys;
  }

  // ---- fetching again after a failure --------------------------------------

  /** What an earlier, broken-off fetch of the same heads left behind on a closed store. */
  ghost predicate BrokenOff(store0: Store, store1: Store, remote: Store, heads: set<Id>) {
    && DepsClosed(store0) && SameIds(store0, remote) && Extends(store0, store1)
    && store1.Keys <= store0.Keys + Missing(store0, remote, heads)
    && forall i :: i in store1 && i !in store0 ==> i in remote && store1[i] == remote[i]
  }

  /**
   When fetching again repairs a broken-off fetch: exactly when the walk still finds everything that what
   was written depends on.
   */
  lemma RetryIff(store0: Store, store1: Store, store2: Store, remote: Store, heads: set<Id>)
    requires BrokenOff(store0, store1, remote, heads) && Extends(store1, store2)
    requires store2.Keys == store1.Keys + Missing(store1, remote, heads)
    requires forall i :: i in store2 && i !in store1 ==> i in remote && store2[i] == remote[i]
    ensures Complete(store2, Ancestry(store2, heads))
       <==> Owed(EdgesOf(store1), store1.Keys) <= Missing(store1, remote, heads)
  {
    SameJoint(store0, store1, remote);
    JointOwes(store0, store1, store2, remote, heads);
    AncIsClosed(EdgesOf(store2), heads);
    hide Anc, EdgesOf, Joint, BrokenOff, Owed, PartOn, Walked, Closed;
    SecondWalkIff(EdgesOf(Joint(store1, remote)), EdgesOf(store2), store0.Keys, store1.Keys, heads);
  }

  lemma SameJoint(store0: Store, store1: Store, remote: Store)
    requires SameIds(store0, remote) && Extends(store0, store1)
    requires forall i :: i in store1 && i !in store0 ==> i in remote && store1[i] == remote[i]
    ensures Joint(store0, remote) == Joint(store1, remote)
  {}

  lemma JointOwes(store0: Store, store1: Store, store2: Store, remote: Store, heads: set<Id>)
    requires BrokenOff(store0, store1, remote, heads) && Extends(store1, store2)
    requires store2.Keys == store1.Keys + Missing(store1, remote, heads)
    requires forall i :: i in store2 && i !in store1 ==> i in remote && store2[i] == remote[i]
    ensures var e := EdgesOf(Joint(store1, remote));
            && Closed(e, store0.Keys) && PartOn(EdgesOf(store2), e, store2.Keys)
            && Owed(e, store1.Keys) == Owed(EdgesOf(store1), store1.Keys)
            && store0.Keys <= store1.Keys && EdgesOf(store2).Keys == store2.Keys
  {
    var joint := Joint(store1, remote);
    hide Missing, Anc, Joint;
    JointKeeps(store0, store1, store2, remote, heads);
    EdgesKeep(store0, joint);
    EdgesKeep(store1, joint);
    EdgesKeep(store2, joint);
    hide EdgesOf, SameIds, Named;
  }

  /** The three stores are parts of what both sides hold together. */
  lemma JointKeeps(store0: Store, store1: Store, store2: Store, remote: Store, heads: set<Id>)
    requires BrokenOff(store0, store1, remote, heads) && Extends(store1, store2)
    requires forall i :: i in store2 && i !in store1 ==> i in remote && store2[i] == remote[i]
    ensures Extends(store0, Joint(store1, remote)) && Extends(store1, Joint(store1, remote))
    ensures Extends(store2, Joint(store1, remote)) && DepsClosed(store0)
    ensures store0.Keys <= store1.Keys
  {
    hide Missing;
  }

  lemma EdgesKeep(store: Store, joint: Store)
    requires Extends(store, joint)
    ensures PartOn(EdgesOf(store), EdgesOf(joint), store.Keys)
    ensures Owed(EdgesOf(joint), store.Keys) == Owed(EdgesOf(store), store.Keys)
    ensures DepsClosed(store) ==> Closed(EdgesOf(joint), store.Keys)
  {}
}
