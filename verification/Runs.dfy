/**
 The repository as a state machine: what each operation does to the store and the views, and the
 invariant every run keeps.
 */
module Runs {
  import opened Base
  import opened Reach
  import opened Kahn
  import opened Cells
  import opened Algebra
  import opened History

  type Views = map<string, set<Id>>

  datatype Repo = Repo(store: Store, views: Views, current: string)

  ghost function Ancestry(store: Store, heads: set<Id>): set<Id> {
    Anc(EdgesOf(store), heads)
  }

  /** A history that is complete in the store, conflict-free and replays without an error. */
  ghost predicate Sound(store: Store, s: set<Id>, ignore: Ignore) {
    Complete(store, s) && ConflictFree(store, s) && Materialized(store, s, ignore).Some?
  }

  /** Every view, and every change in the store, stands on a sound history. */
  ghost predicate Inv(r: Repo, ignore: Ignore) {
    && WellFormed(r.store)
    && (forall v :: v in r.views ==> Sound(r.store, Ancestry(r.store, r.views[v]), ignore))
    && (forall i :: i in r.store ==> Sound(r.store, Ancestry(r.store, {i}), ignore))
  }

  // ---- the operations ------------------------------------------------------

  /** The id determines the change, and an id nobody wrote yet is not named by anyone. */
  ghost predicate NewId(store: Store, c: Change) {
    if c.id in store then store[c.id] == c else
      c.id !in c.deps && forall x :: x in store ==> c.id !in store[x].deps
  }

  /** A change recorded on top of the current heads, which the view then points to. */
  ghost predicate SnapStep(r: Repo, c: Change, r': Repo) {
    && r.current in r.views && c.deps == r.views[r.current] && NewId(r.store, c)
    && r' == r.(store := r.store[c.id := c], views := r.views[r.current := {c.id}])
  }

  /** The atoms of the change apply to the state the current view materialises to. */
  ghost predicate AppliesTo(store: Store, c: Change, ignore: Ignore) {
    && Materialized(store, Ancestry(store, c.deps), ignore).Some?
    && Run(Materialized(store, Ancestry(store, c.deps), ignore).value, Writes(c, ignore)).Some?
  }

  /** A change recorded like a snap, under a view of its own. */
  ghost predicate StashStep(r: Repo, c: Change, name: string, r': Repo) {
    && r.current in r.views && c.deps == r.views[r.current] && NewId(r.store, c)
    && r' == r.(store := r.store[c.id := c], views := r.views[name := {c.id}])
  }

  ghost predicate CreateViewStep(r: Repo, name: string, r': Repo) {
    && r.current in r.views && name !in r.views
    && r' == r.(views := r.views[name := r.views[r.current]])
  }

  ghost predicate SwitchStep(r: Repo, name: string, r': Repo) {
    name in r.views && r' == r.(current := name)
  }

  /** Both sides are complete and no pair of their exclusive deltas fails the check: unite the heads. */
  ghost predicate MergeStep(r: Repo, target: set<Id>, r': Repo) {
    && r.current in r.views
    && Complete(r.store, Ancestry(r.store, r.views[r.current]))
    && Complete(r.store, Ancestry(r.store, target))
    && Conflicts(r.store, Ancestry(r.store, r.views[r.current]), Ancestry(r.store, target)) == {}
    && r' == r.(views := r.views[r.current := r.views[r.current] + target])
  }

  /**
   The picked change's dependencies are in the view and it commutes with everything in the view
   outside its own ancestors, as far as those are known to the partly loaded graph `known`.
   */
  ghost predicate PickStep(r: Repo, hash: Id, known: Store, r': Repo) {
    && r.current in r.views && hash in r.store
    && Complete(r.store, Ancestry(r.store, r.views[r.current]))
    && (forall i :: i in known ==> i in r.store && known[i] == r.store[i])
    && r.store[hash].deps <= Ancestry(r.store, r.views[r.current])
    && (forall x :: x in Ancestry(r.store, r.views[r.current]) - Ancestry(known, {hash}) ==>
          Commutes(r.store[hash], r.store[x]))
    && r' == r.(views := r.views[r.current := r.views[r.current] + {hash}])
  }

  datatype Label =
    | Snap(c: Change)
    | Stash(c: Change, name: string)
    | CreateView(name: string)
    | Switch(name: string)
    | MergeView(from: string)
    | MergeHeads(target: set<Id>)
    | PopStash(from: string)
    | CherryPick(hash: Id, known: Store)
    | Refuse

  /**
   One step of a run. A recorded change must apply to the state it was computed from, and heads that are not
   those of a view must be free of conflicts among themselves.
   */
  ghost predicate Step(r: Repo, l: Label, r': Repo, ignore: Ignore) {
    match l
    case Snap(c) => SnapStep(r, c, r') && AppliesTo(r.store, c, ignore)
    case Stash(c, name) => StashStep(r, c, name, r') && AppliesTo(r.store, c, ignore)
    case CreateView(name) => CreateViewStep(r, name, r')
    case Switch(name) => SwitchStep(r, name, r')
    case MergeView(from) => from in r.views && MergeStep(r, r.views[from], r')
    case MergeHeads(target) =>
      MergeStep(r, target, r') && ConflictFree(r.store, Ancestry(r.store, target))
    case PopStash(from) =>
      && from in r.views
      && exists m :: MergeStep(r, r.views[from], m) && r' == m.(views := m.views - {from})
    case CherryPick(hash, known) => PickStep(r, hash, known, r')
    case Refuse => r' == r
  }

  ghost predicate IsRun(states: seq<Repo>, labels: seq<Label>, ignore: Ignore) {
    && |states| == |labels| + 1
    && states[0] == Repo(map[], map["main" := {}], "main")
    && forall i :: 0 <= i < |labels| ==> Step(states[i], labels[i], states[i + 1], ignore)
  }

  // ---- growing the store ---------------------------------------------------

  lemma {:induction false} FlatAgrees<V>(f: Id -> seq<Write<V>>, g: Id -> seq<Write<V>>, order: seq<Id>)
    requires forall x :: x in order ==> f(x) == g(x)
    ensures Flat(f, order) == Flat(g, order)
  {
    if order != [] {
      FlatAgrees(f, g, order[..|order| - 1]);
    }
  }

  ghost predicate Extends(store: Store, store': Store) {
    forall i :: i in store ==> i in store' && store'[i] == store[i]
  }

  /** A complete history means the same in every store that extends it. */
  lemma HistoryExtends(store: Store, store': Store, s: set<Id>, ignore: Ignore)
    requires Extends(store, store') && Complete(store, s)
    ensures Complete(store', s) && (ConflictFree(store', s) <==> ConflictFree(store, s))
    ensures KahnOrder(EdgesOf(store'), s) == KahnOrder(EdgesOf(store), s)
    ensures Acyclic(EdgesOf(store)) ==> Materialized(store', s, ignore) == Materialized(store, s, ignore)
  {
    var e, f := EdgesOf(store), EdgesOf(store');
    assert Agree(e, f, s);
    ClosedAgrees(e, f, s);
    forall a, b | a in s && b in s ensures Related(e, a, b) <==> Related(f, a, b) {
      AboveAgrees(e, f, s, a, b);
      AboveAgrees(e, f, s, b, a);
    }
    KahnOrderAgrees(e, f, s);
    if Acyclic(e) {
      KahnOrderLinear(e, s);
      var o := KahnOrder(e, s);
      forall x | x in o ensures WritesIn(store, ignore)(x) == WritesIn(store', ignore)(x) {
        assert x in Elems(o);
      }
      FlatAgrees(WritesIn(store, ignore), WritesIn(store', ignore), o);
    }
  }

  lemma AncestryExtends(store: Store, store': Store, heads: set<Id>)
    requires Extends(store, store') && Complete(store, Ancestry(store, heads))
    ensures Ancestry(store', heads) == Ancestry(store, heads)
  {
    var e, f := EdgesOf(store), EdgesOf(store');
    AncIsClosed(e, heads);
    assert Agree(e, f, Ancestry(store, heads));
    AncAgrees(e, f, Ancestry(store, heads), heads);
  }

  // ---- recording a change --------------------------------------------------

  /** `store'` is `store` with the new change `c` on top of a complete history. */
  ghost predicate Records(store: Store, c: Change, store': Store) {
    && WellFormed(store) && c.id !in store && NewId(store, c)
    && Complete(store, Ancestry(store, c.deps))
    && Extends(store, store') && store'.Keys == store.Keys + {c.id} && store'[c.id] == c
  }

  lemma RecordAddsTop(store: Store, c: Change, store': Store)
    requires Records(store, c, store')
    ensures AddsTop(EdgesOf(store), EdgesOf(store'), c.deps, c.id)
  {
    var e, f := EdgesOf(store), EdgesOf(store');
    forall x ensures x != c.id ==> Deps(f, x) == Deps(e, x) {}
  }

  lemma RecordExtends(store: Store, c: Change, store': Store)
    requires c.id !in store && store' == store[c.id := c]
    ensures Extends(store, store') && store'.Keys == store.Keys + {c.id} && store'[c.id] == c
  {}

  lemma RecordIds(store: Store, c: Change, store': Store)
    requires Extends(store, store') && store'.Keys == store.Keys + {c.id} && c.id in store' && store'[c.id] == c
    requires forall i :: i in store ==> store[i].id == i
    ensures forall i :: i in store' ==> store'[i].id == i
  {
    forall i | i in store' ensures store'[i].id == i {
      assert i in store.Keys + {c.id};
    }
  }

  /** The topological order of a new change is the order of its dependencies' histories, then the change. */
  lemma SnapOrder(store: Store, c: Change, store': Store)
    requires Records(store, c, store')
    ensures WellFormed(store')
    ensures Ancestry(store', {c.id}) == Ancestry(store, c.deps) + {c.id}
    ensures KahnOrder(EdgesOf(store'), Ancestry(store', {c.id}))
         == KahnOrder(EdgesOf(store), Ancestry(store, c.deps)) + [c.id]
  {
    var e, f := EdgesOf(store), EdgesOf(store');
    RecordAddsTop(store, c, store');
    RecordIds(store, c, store');
    AddsTopAcyclic(e, f, c.deps, c.id);
    AddsTopAncestors(e, f, c.deps, c.id);
    KahnOrderAppends(e, f, c.deps, c.id);
  }

  lemma ReplaySnoc(store: Store, order: seq<Id>, c: Change, ignore: Ignore)
    requires c.id in store && store[c.id] == c
    ensures Replay(store, order + [c.id], ignore)
         == match Replay(store, order, ignore) case None => None case Some(s) => Run(s, Writes(c, ignore))
  {
    var g := WritesIn(store, ignore);
    assert (order + [c.id])[..|order|] == order;
    RunConcat(map[], Flat(g, order), g(c.id));
  }

  /**
   Snap appends: materialising a new change is applying it to the state its dependencies
   materialised to. Conflicts play no part in this.
   */
  lemma SnapAppends(store: Store, c: Change, store': Store, ignore: Ignore)
    requires Records(store, c, store')
    ensures Materialized(store', Ancestry(store', {c.id}), ignore)
         == match Materialized(store, Ancestry(store, c.deps), ignore)
            case None => None
            case Some(s) => Run(s, Writes(c, ignore))
  {
    var s := Ancestry(store, c.deps);
    SnapOrder(store, c, store');
    HistoryExtends(store, store', s, ignore);
    ReplaySnoc(store', KahnOrder(EdgesOf(store), s), c, ignore);
  }

  lemma TopConflictFree(store: Store, s: set<Id>, n: Id)
    requires n in store && s <= store.Keys && ConflictFree(store, s)
    requires forall a :: a in s ==> Above(EdgesOf(store), n, a)
    ensures ConflictFree(store, s + {n})
  {}

  lemma RecordedIsSound(store: Store, c: Change, store': Store, ignore: Ignore)
    requires Records(store, c, store')
    requires Sound(store, Ancestry(store, c.deps), ignore) && AppliesTo(store, c, ignore)
    ensures Sound(store', Ancestry(store', {c.id}), ignore)
  {
    var s, f := Ancestry(store, c.deps), EdgesOf(store');
    SnapOrder(store, c, store');
    SnapAppends(store, c, store', ignore);
    HistoryExtends(store, store', s, ignore);
    AncIsClosed(f, {c.id});
    forall a | a in s ensures Above(f, c.id, a) {
      AncOfOne(f, c.id, a);
      ReachesSplit(f, c.id, a);
    }
    TopConflictFree(store', s, c.id);
  }

  lemma SoundExtends(store: Store, store': Store, heads: set<Id>, ignore: Ignore)
    requires WellFormed(store) && Extends(store, store') && Sound(store, Ancestry(store, heads), ignore)
    ensures Sound(store', Ancestry(store', heads), ignore)
  {
    HistoryExtends(store, store', Ancestry(store, heads), ignore);
    AncestryExtends(store, store', heads);
  }

  lemma RecordedInv(r: Repo, c: Change, name: string, r': Repo, ignore: Ignore)
    requires Inv(r, ignore) && Records(r.store, c, r'.store) && r'.views == r.views[name := {c.id}]
    requires Sound(r'.store, Ancestry(r'.store, {c.id}), ignore)
    ensures Inv(r', ignore)
  {
    SnapOrder(r.store, c, r'.store);
    forall v | v in r'.views ensures Sound(r'.store, Ancestry(r'.store, r'.views[v]), ignore) {
      if v != name {
        SoundExtends(r.store, r'.store, r.views[v], ignore);
      }
    }
    EveryChangeSound(r.store, c, r'.store, ignore);
  }

  lemma EveryChangeSound(store: Store, c: Change, store': Store, ignore: Ignore)
    requires WellFormed(store) && Extends(store, store') && store'.Keys == store.Keys + {c.id}
    requires forall i :: i in store ==> Sound(store, Ancestry(store, {i}), ignore)
    requires Sound(store', Ancestry(store', {c.id}), ignore)
    ensures forall i :: i in store' ==> Sound(store', Ancestry(store', {i}), ignore)
  {
    forall i | i in store' ensures Sound(store', Ancestry(store', {i}), ignore) {
      if i != c.id {
        assert i in store;
        SoundExtends(store, store', {i}, ignore);
      }
    }
  }

  lemma RecordKeepsInv(r: Repo, c: Change, name: string, r': Repo, ignore: Ignore)
    requires Inv(r, ignore) && r.current in r.views && c.deps == r.views[r.current]
    requires NewId(r.store, c) && AppliesTo(r.store, c, ignore)
    requires r'.store == r.store[c.id := c] && r'.views == r.views[name := {c.id}]
    ensures Inv(r', ignore)
  {
    if c.id in r.store {
      assert r'.store == r.store;
    } else {
      RecordExtends(r.store, c, r'.store);
      RecordedIsSound(r.store, c, r'.store, ignore);
      RecordedInv(r, c, name, r', ignore);
    }
  }

  // ---- joining histories ---------------------------------------------------

  lemma UnionIsSound(store: Store, a: set<Id>, b: set<Id>, ignore: Ignore)
    requires WellFormed(store) && Sound(store, a, ignore) && Sound(store, b, ignore) && ConflictFree(store, a + b)
    ensures Sound(store, a + b, ignore)
  {
    MergeLosesNothing(store, a, b, ignore);
  }

  lemma MergeKeepsInv(r: Repo, target: set<Id>, r': Repo, ignore: Ignore)
    requires Inv(r, ignore) && MergeStep(r, target, r') && Sound(r.store, Ancestry(r.store, target), ignore)
    ensures Inv(r', ignore)
  {
    var a, b := Ancestry(r.store, r.views[r.current]), Ancestry(r.store, target);
    AcceptanceIsExact(r.store, a, b);
    UnionIsSound(r.store, a, b, ignore);
    AncUnion(EdgesOf(r.store), r.views[r.current], target);
  }

  /** Any heads whose history is complete and conflict-free replay, whoever put them together. */
  lemma {:induction false} HeadsAreSound(r: Repo, heads: set<Id>, ignore: Ignore)
    requires Inv(r, ignore) && Complete(r.store, Ancestry(r.store, heads))
    requires ConflictFree(r.store, Ancestry(r.store, heads))
    ensures Sound(r.store, Ancestry(r.store, heads), ignore)
    decreases heads
  {
    hide ConflictFree, Materialized;
    if h :| h in heads {
      var rest, one := Ancestry(r.store, heads - {h}), Ancestry(r.store, {h});
      assert heads - {h} + {h} == heads;
      AncUnion(EdgesOf(r.store), heads - {h}, {h});
      AncIsClosed(EdgesOf(r.store), heads);
      AncIsClosed(EdgesOf(r.store), heads - {h});
      SubsetConflictFree(r.store, rest, rest + one);
      HeadsAreSound(r, heads - {h}, ignore);
      assert h in r.store;
      UnionIsSound(r.store, rest, one, ignore);
    } else {
      assert heads == {};
      NothingIsSound(r.store, ignore);
    }
  }

  lemma NothingIsSound(store: Store, ignore: Ignore)
    ensures Sound(store, Ancestry(store, {}), ignore)
    ensures Materialized(store, Ancestry(store, {}), ignore) == Some(map[])
  {
    var e := EdgesOf(store);
    AncIsLeast(e, {}, {});
    KahnInit(e, {});
    assert Roots(e, {}) == {} && SortIds({}) == [];
  }

  /** What a partly loaded graph knows of a change's ancestors are ancestors. */
  lemma KnownAncestors(store: Store, known: Store, heads: set<Id>)
    requires Extends(known, store)
    ensures Ancestry(known, heads) <= Ancestry(store, heads)
  {
    var e, f := EdgesOf(store), EdgesOf(known);
    AncIsClosed(e, heads);
    assert Closed(f, Anc(e, heads)) by {
      forall x | x in Anc(e, heads) ensures Deps(f, x) <= Anc(e, heads) {
        assert Deps(f, x) <= Deps(e, x);
      }
    }
    AncIsLeast(f, heads, Anc(e, heads));
  }

  lemma PickedAncestors(store: Store, heads: set<Id>, hash: Id)
    requires hash in store && store[hash].deps <= Ancestry(store, heads)
    ensures Ancestry(store, {hash}) <= Ancestry(store, heads) + {hash}
    ensures forall y :: y in Ancestry(store, {hash}) && y != hash ==> Above(EdgesOf(store), hash, y)
  {
    var e, a := EdgesOf(store), Ancestry(store, heads);
    AncIsClosed(e, heads);
    assert Closed(e, a + {hash});
    AncIsLeast(e, {hash}, a + {hash});
    forall y | y in Anc(e, {hash}) && y != hash ensures Above(e, hash, y) {
      AncOfOne(e, hash, y);
      ReachesSplit(e, hash, y);
    }
  }

  lemma PickConflictFree(store: Store, a: set<Id>, x: set<Id>, hash: Id)
    requires a <= store.Keys && x <= a + {hash} && hash in store && ConflictFree(store, a)
    requires forall y :: y in a && y !in x ==> Commutes(store[hash], store[y])
    requires forall y :: y in x && y != hash ==> Above(EdgesOf(store), hash, y)
    ensures ConflictFree(store, a + x)
  {
    forall y | y in a + x && y != hash && !Related(EdgesOf(store), hash, y)
      ensures Commutes(store[hash], store[y]) && Commutes(store[y], store[hash])
    {
      CommutesSymmetric(store[hash], store[y]);
    }
  }

  lemma PickKeepsInv(r: Repo, hash: Id, known: Store, r': Repo, ignore: Ignore)
    requires Inv(r, ignore) && PickStep(r, hash, known, r')
    ensures Inv(r', ignore)
  {
    var heads := r.views[r.current];
    var a, x := Ancestry(r.store, heads), Ancestry(r.store, {hash});
    KnownAncestors(r.store, known, {hash});
    PickedAncestors(r.store, heads, hash);
    PickConflictFree(r.store, a, x, hash);
    UnionIsSound(r.store, a, x, ignore);
    AncUnion(EdgesOf(r.store), heads, {hash});
  }

  // ---- every run is safe ---------------------------------------------------

  lemma StepKeepsInv(r: Repo, l: Label, r': Repo, ignore: Ignore)
    requires Inv(r, ignore) && Step(r, l, r', ignore)
    ensures Inv(r', ignore)
  {
    match l
    case Snap(c) => RecordKeepsInv(r, c, r.current, r', ignore);
    case Stash(c, name) => RecordKeepsInv(r, c, name, r', ignore);
    case CreateView(_) =>
    case Switch(_) =>
    case MergeView(from) => MergeKeepsInv(r, r.views[from], r', ignore);
    case MergeHeads(target) =>
      HeadsAreSound(r, target, ignore);
      MergeKeepsInv(r, target, r', ignore);
    case PopStash(from) =>
      var m :| MergeStep(r, r.views[from], m) && r' == m.(views := m.views - {from});
      MergeKeepsInv(r, r.views[from], m, ignore);
    case CherryPick(hash, known) => PickKeepsInv(r, hash, known, r', ignore);
    case Refuse =>
  }

  lemma InitInv(ignore: Ignore)
    ensures Inv(Repo(map[], map["main" := {}], "main"), ignore)
  {
    forall x ensures !Above(EdgesOf(map[]), x, x) {}
    NothingIsSound(map[], ignore);
  }

  /**
   Safety over whole runs: in every state of every run each view's ancestor set is complete in the
   store, conflict-free, and replays without an error.
   */
  lemma {:induction false} RunsAreSafe(states: seq<Repo>, labels: seq<Label>, ignore: Ignore, i: nat)
    requires IsRun(states, labels, ignore) && i < |states|
    ensures Inv(states[i], ignore)
  {
    if i == 0 {
      InitInv(ignore);
    } else {
      RunsAreSafe(states, labels, ignore, i - 1);
      StepKeepsInv(states[i - 1], labels[i - 1], states[i - 1 + 1], ignore);
    }
  }
}
