/** Pushing a view to another repository on disk (`push_local` in `crates/arc-cli/src/sync.rs`). */
module Push {
  import opened Base
  import opened Reach
  import opened PatchAlgebra
  import Graph

  type Objects = map<Id, Change>
  type Blobs = map<Id, Bytes>
  type Views = map<string, set<Id>>

  function EdgesOf(objects: Objects): Edges {
    map i | i in objects :: objects[i].deps
  }

  ghost predicate Named(objects: Objects) {
    forall i :: i in objects ==> objects[i].id == i
  }

  /** A store that holds with each change its dependencies. */
  ghost predicate DepsClosed(objects: Objects) {
    forall i :: i in objects ==> objects[i].deps <= objects.Keys
  }

  /** Content addressing: a blob is stored under its hash. */
  ghost predicate Addressed(blobs: Blobs, hash: Bytes -> Id) {
    forall h :: h in blobs ==> hash(blobs[h]) == h
  }

  datatype Disk = Disk(objects: Objects, blobs: Blobs, views: Views)

  /** Every ancestor of every saved view head is in the store. */
  ghost predicate NeverDangles(d: Disk) {
    forall v :: v in d.views ==> Anc(EdgesOf(d.objects), d.views[v]) <= d.objects.Keys
  }

  /**
   The receiving repository. Unless the disk is reliable every write may fail; `log` lists the states
   the disk has been in.
   */
  class Remote {
    const reliable: bool
    var objects: Objects
    var blobs: Blobs
    var views: Views
    ghost var log: seq<Disk>

    constructor (objects: Objects, blobs: Blobs, views: Views, reliable: bool)
      ensures this.reliable == reliable && Now() == Disk(objects, blobs, views) && log == [Now()]
    {
      this.objects, this.blobs, this.views, this.reliable := objects, blobs, views, reliable;
      log := [Disk(objects, blobs, views)];
    }

    ghost function Now(): Disk
      reads this
    {
      Disk(objects, blobs, views)
    }

    /** Whether the disk happens to take a write. */
    method Works() returns (b: bool) {
      b := *;
    }

    /** Write a change; a change that is already there is left alone. */
    method WriteChange(c: Change) returns (ok: bool)
      modifies this
      ensures views == old(views) && blobs == old(blobs)
      ensures objects == if ok && c.id !in old(objects) then old(objects)[c.id := c] else old(objects)
      ensures log == old(log) + [Now()] && (reliable ==> ok)
    {
      var works := Works();
      if c.id in objects {
        ok := true;
      } else if reliable || works {
        objects := objects[c.id := c];
        ok := true;
      } else {
        ok := false;
      }
      log := log + [Now()];
    }

    method WriteBlob(bytes: Bytes, hash: Bytes -> Id) returns (ok: bool)
      modifies this
      ensures views == old(views) && objects == old(objects)
      ensures blobs == if ok then old(blobs)[hash(bytes) := bytes] else old(blobs)
      ensures log == old(log) + [Now()] && (reliable ==> ok)
    {
      var works := Works();
      if reliable || works {
        blobs := blobs[hash(bytes) := bytes];
        ok := true;
      } else {
        ok := false;
      }
      log := log + [Now()];
    }

    method SaveView(name: string, heads: set<Id>) returns (ok: bool)
      modifies this
      ensures objects == old(objects) && blobs == old(blobs)
      ensures views == if ok then old(views)[name := heads] else old(views)
      ensures log == old(log) + [Now()] && (reliable ==> ok)
    {
      var works := Works();
      if reliable || works {
        views := views[name := heads];
        ok := true;
      } else {
        ok := false;
      }
      log := log + [Now()];
    }
  }

  // ---- the walk ------------------------------------------------------------

  function Ids(cs: seq<Change>): set<Id> {
    set c | c in cs :: c.id
  }

  /** No change is listed twice. */
  ghost predicate Unique(cs: seq<Change>) {
    forall i, j :: 0 <= i < j < |cs| ==> cs[i].id != cs[j].id
  }

  /** What the walk can find: it stops at what the remote has. */
  ghost function Findable(local: Objects, remote: Objects, heads: set<Id>): set<Id> {
    Anc(Cut(EdgesOf(local), remote.Keys), heads)
  }

  /** What the remote misses of the heads' history, as far as the walk gets. */
  ghost function Missing(local: Objects, remote: Objects, heads: set<Id>): set<Id> {
    Walked(EdgesOf(local), remote.Keys, heads)
  }

  /** Changes of the local store that the remote does not have. */
  ghost predicate Sendable(local: Objects, remote: Objects, cs: seq<Change>) {
    forall c :: c in cs ==> c.id in local && local[c.id] == c && c.id !in remote
  }

  /** What each turn of the walk keeps. */
  ghost predicate Walking(local: Objects, remote: Objects, heads: set<Id>, visited: set<Id>, queue: seq<Id>,
                          delta: seq<Change>) {
    && visited + Elems(queue) <= Findable(local, remote, heads)
    && heads <= visited + Elems(queue)
    && Sendable(local, remote, delta) && Unique(delta)
    && Ids(delta) == visited - remote.Keys
    && (forall c :: c in delta ==> c.deps <= visited + Elems(queue))
  }

  /** The changes the remote misses: walk from the local heads, cut at what the remote already has. */
  method Delta(local: Objects, remote: Objects, heads: set<Id>) returns (ok: bool, delta: seq<Change>)
    requires Named(local)
    ensures ok <==> Missing(local, remote, heads) <= local.Keys
    ensures Sendable(local, remote, delta) && Unique(delta) && Ids(delta) <= Missing(local, remote, heads)
    ensures ok ==> Ids(delta) == Missing(local, remote, heads)
  {
    hide Findable, Missing, EdgesOf, Walking;
    var queue := Graph.Listed(heads);
    var visited: set<Id> := {};
    delta := [];
    WalkStart(local, remote, heads, queue);
    while queue != []
      invariant Walking(local, remote, heads, visited, queue, delta)
      decreases Findable(local, remote, heads) - visited, |queue|
    {
      var id := queue[0];
      WalkTurn(local, remote, heads, visited, queue, delta);
      queue := queue[1..];
      if id in visited {
        continue;
      }
      ghost var visited0, rest := visited, queue;
      visited := visited + {id};
      if id in remote {
        continue;
      }
      if id !in local {
        WalkMisses(local, remote, heads, visited0, rest, delta, id);
        return false, delta;
      }
      var change := local[id];
      queue := Graph.Enqueue(queue, change.deps, visited);
      WalkAdds(local, remote, heads, visited0, rest, delta, id, queue);
      delta := delta + [change];
    }
    WalkDone(local, remote, heads, visited, delta);
    ok := true;
  }

  lemma WalkStart(local: Objects, remote: Objects, heads: set<Id>, queue: seq<Id>)
    requires Elems(queue) == heads
    ensures Walking(local, remote, heads, {}, queue, [])
  {
    AncIsClosed(Cut(EdgesOf(local), remote.Keys), heads);
    hide Anc;
  }

  lemma WalkTurn(local: Objects, remote: Objects, heads: set<Id>, visited: set<Id>, queue: seq<Id>, delta: seq<Change>)
    requires Walking(local, remote, heads, visited, queue, delta) && queue != []
    ensures queue[0] in visited ==> Walking(local, remote, heads, visited, queue[1..], delta)
    ensures queue[0] in remote ==> Walking(local, remote, heads, visited + {queue[0]}, queue[1..], delta)
    ensures queue[0] !in visited ==> Walking(local, remote, heads, visited, [queue[0]] + queue[1..], delta)
    ensures queue[0] !in visited ==>
              Findable(local, remote, heads) - (visited + {queue[0]}) < Findable(local, remote, heads) - visited
  {
    hide Findable, Ids, Sendable, Unique;
    Graph.PopElems(queue);
    assert [queue[0]] + queue[1..] == queue;
    var all := Findable(local, remote, heads);
    assert queue[0] in all;
    assert queue[0] !in visited ==> queue[0] in all - visited && queue[0] !in all - (visited + {queue[0]});
  }

  lemma WalkMisses(local: Objects, remote: Objects, heads: set<Id>, visited: set<Id>, rest: seq<Id>,
                   delta: seq<Change>, id: Id)
    requires Walking(local, remote, heads, visited, [id] + rest, delta) && id !in local && id !in remote
    ensures !(Missing(local, remote, heads) <= local.Keys)
    ensures Sendable(local, remote, delta) && Unique(delta) && Ids(delta) <= Missing(local, remote, heads)
  {
    hide Anc, EdgesOf, Ids, Sendable, Unique;
    Graph.PopElems([id] + rest);
    assert id in Missing(local, remote, heads);
  }

  lemma WalkAdds(local: Objects, remote: Objects, heads: set<Id>, visited: set<Id>, rest: seq<Id>, delta: seq<Change>,
                 id: Id, queue: seq<Id>)
    requires Walking(local, remote, heads, visited, [id] + rest, delta) && Named(local)
    requires id in local && id !in remote && id !in visited
    requires Elems(queue) == Elems(rest) + (local[id].deps - (visited + {id}))
    ensures Walking(local, remote, heads, visited + {id}, queue, delta + [local[id]])
  {
    Graph.PopElems([id] + rest);
    assert ([id] + rest)[1..] == rest;
    LocalDeps(local, remote, heads, id);
    AddKeepsDelta(local, remote, delta, id, visited, Elems([id] + rest), Elems(queue));
    hide Findable, Elems, Ids, Unique, Sendable;
    AddKeepsWalkBounds(Findable(local, remote, heads), heads, visited, id, local[id].deps, Elems(rest), Elems(queue));
  }

  lemma AddKeepsDelta(local: Objects, remote: Objects, delta: seq<Change>, id: Id, visited: set<Id>,
                      queue0: set<Id>, queue: set<Id>)
    requires Named(local) && id in local && id !in remote && id !in visited
    requires Sendable(local, remote, delta) && Unique(delta) && Ids(delta) == visited - remote.Keys
    requires forall c :: c in delta ==> c.deps <= visited + queue0
    requires queue0 - {id} <= queue && local[id].deps <= visited + {id} + queue
    ensures Sendable(local, remote, delta + [local[id]]) && Unique(delta + [local[id]])
    ensures Ids(delta + [local[id]]) == visited + {id} - remote.Keys
    ensures forall c :: c in delta + [local[id]] ==> c.deps <= visited + {id} + queue
  {
    UniqueSnoc(delta, local[id]);
    hide Ids, Unique;
    assert forall c :: c in delta + [local[id]] <==> c in delta || c == local[id];
    assert visited + queue0 <= visited + {id} + queue;
  }

  lemma LocalDeps(local: Objects, remote: Objects, heads: set<Id>, id: Id)
    requires id in Findable(local, remote, heads) && id in local && id !in remote
    ensures local[id].deps <= Findable(local, remote, heads)
  {
    var e := Cut(EdgesOf(local), remote.Keys);
    AncIsClosed(e, heads);
    assert Deps(e, id) <= Anc(e, heads);
  }

  lemma AddKeepsWalkBounds(all: set<Id>, heads: set<Id>, visited: set<Id>, id: Id, deps: set<Id>, rest: set<Id>,
                           queue: set<Id>)
    requires visited + ({id} + rest) <= all && heads <= visited + ({id} + rest) && deps <= all
    requires queue == rest + (deps - (visited + {id}))
    ensures visited + {id} + queue <= all && heads <= visited + {id} + queue
    ensures visited + ({id} + rest) <= visited + {id} + queue && deps <= visited + {id} + queue
  {}

  lemma IdsSnoc(cs: seq<Change>, c: Change)
    ensures Ids(cs + [c]) == Ids(cs) + {c.id}
  {
    assert forall x :: x in cs + [c] <==> x in cs || x == c;
  }

  lemma UniqueSnoc(cs: seq<Change>, c: Change)
    ensures Ids(cs + [c]) == Ids(cs) + {c.id}
    ensures Unique(cs) && c.id !in Ids(cs) ==> Unique(cs + [c])
  {
    IdsSnoc(cs, c);
    assert forall i :: 0 <= i < |cs| ==> cs[i] in cs && cs[i].id in Ids(cs);
  }

  lemma WalkDone(local: Objects, remote: Objects, heads: set<Id>, visited: set<Id>, delta: seq<Change>)
    requires Walking(local, remote, heads, visited, [], delta)
    ensures Sendable(local, remote, delta) && Unique(delta)
    ensures Ids(delta) == Missing(local, remote, heads) <= local.Keys
  {
    var e := EdgesOf(local);
    assert Elems<Id>([]) == {};
    forall x | x in visited ensures Deps(Cut(e, remote.Keys), x) <= visited {
      CutDeps(e, remote.Keys, x);
      if x !in remote {
        assert x in Ids(delta);
        var c :| c in delta && c.id == x;
      }
    }
    AncIsLeast(Cut(e, remote.Keys), heads, visited);
    forall x | x in Ids(delta) ensures x in local {
      var c :| c in delta && c.id == x;
    }
  }

  // ---- writing -------------------------------------------------------------

  /** The blob an atom needs on the other side; only inserts and deletes are followed. */
  function BlobOf(a: Atom): Option<Id> {
    match a
    case Insert(_, h) => Some(h)
    case Delete(_, h) => Some(h)
    case _ => None
  }

  ghost predicate HasBlobs(blobs: Blobs, atoms: seq<Atom>) {
    forall a :: a in atoms && BlobOf(a).Some? ==> BlobOf(a).value in blobs
  }

  /** The blobs that count are those an insert stores and those a delete names. */
  lemma HasBlobsIff(blobs: Blobs, atoms: seq<Atom>)
    ensures HasBlobs(blobs, atoms)
       <==> forall a :: a in atoms ==> (a.Insert? ==> a.contentHash in blobs) && (a.Delete? ==> a.priorHash in blobs)
  {}

  /** The log grew, and only by states whose objects and views are these. */
  ghost predicate LoggedSame(log0: seq<Disk>, log: seq<Disk>, objects: Objects, views: Views) {
    && log0 <= log
    && forall i :: |log0| <= i < |log| ==> log[i].objects == objects && log[i].views == views
  }

  /** The blobs the atoms need are there, nothing else was added and nothing lost. */
  ghost predicate BlobsCopied(blobs0: Blobs, blobs: Blobs, local: Blobs, atoms: seq<Atom>, n: nat)
    requires n <= |atoms|
  {
    && (forall h :: h in blobs0 ==> h in blobs && blobs[h] == blobs0[h])
    && (forall h :: h in blobs && h !in blobs0 ==> h in local && blobs[h] == local[h] && Needs(atoms, h))
    && (forall j :: 0 <= j < n && BlobOf(atoms[j]).Some? ==> BlobOf(atoms[j]).value in blobs)
  }

  ghost predicate Needs(atoms: seq<Atom>, h: Id) {
    exists a :: a in atoms && BlobOf(a) == Some(h)
  }

  method CopyBlobs(c: Change, local: Blobs, remote: Remote, hash: Bytes -> Id) returns (ok: bool)
    requires Addressed(local, hash)
    modifies remote
    ensures remote.objects == old(remote.objects) && remote.views == old(remote.views)
    ensures BlobsCopied(old(remote.blobs), remote.blobs, local, c.atoms, 0)
    ensures LoggedSame(old(remote.log), remote.log, remote.objects, remote.views)
    ensures ok ==> HasBlobs(remote.blobs, c.atoms)
    ensures remote.reliable && HasBlobs(local, c.atoms) ==> ok
  {
    for i := 0 to |c.atoms|
      invariant remote.objects == old(remote.objects) && remote.views == old(remote.views)
      invariant BlobsCopied(old(remote.blobs), remote.blobs, local, c.atoms, i)
      invariant LoggedSame(old(remote.log), remote.log, remote.objects, remote.views)
    {
      var b := BlobOf(c.atoms[i]);
      if b.Some? && b.value !in remote.blobs {
        if b.value !in local {
          return false;
        }
        assert Needs(c.atoms, b.value);
        ok := remote.WriteBlob(local[b.value], hash);
        if !ok {
          return false;
        }
      }
    }
    ok := true;
  }

  /** The objects after the first `n` changes of the delta are written. */
  ghost predicate Written(objects0: Objects, objects: Objects, delta: seq<Change>, n: nat) {
    && n <= |delta|
    && objects.Keys == objects0.Keys + Ids(delta[..n])
    && (forall i :: i in objects0 ==> objects[i] == objects0[i])
    && (forall j :: 0 <= j < n ==> objects[delta[j].id] == delta[j])
  }

  lemma WrittenNext(objects0: Objects, objects: Objects, delta: seq<Change>, n: nat, objects': Objects)
    requires Written(objects0, objects, delta, n) && n < |delta|
    requires objects' == if delta[n].id in objects then objects else objects[delta[n].id := delta[n]]
    requires delta[n].id !in objects0 && Unique(delta)
    ensures Written(objects0, objects', delta, n + 1)
  {
    assert delta[..n + 1] == delta[..n] + [delta[n]];
    IdsSnoc(delta[..n], delta[n]);
    NotYet(delta, n);
  }

  lemma NotYet(delta: seq<Change>, n: nat)
    requires n < |delta| && Unique(delta)
    ensures delta[n].id !in Ids(delta[..n])
  {
    forall c | c in delta[..n] ensures c.id != delta[n].id {
      var j :| 0 <= j < n && delta[j] == c;
    }
  }

  /** The store kept all it had. */
  ghost predicate Kept(objects0: Objects, objects: Objects) {
    forall i :: i in objects0 ==> i in objects && objects[i] == objects0[i]
  }

  /** A closed store whose views point into it. */
  ghost predicate Sane(objects: Objects, views: Views) {
    DepsClosed(objects) && forall v :: v in views ==> views[v] <= objects.Keys
  }

  /** Adding changes to a closed store leaves what its views stand on in place. */
  lemma ViewsSurvive(objects0: Objects, objects: Objects, blobs: Blobs, views: Views)
    requires Sane(objects0, views) && Kept(objects0, objects)
    ensures NeverDangles(Disk(objects, blobs, views))
  {
    var e := EdgesOf(objects);
    assert Closed(e, objects0.Keys);
    forall v | v in views ensures Anc(e, views[v]) <= objects.Keys {
      AncIsLeast(e, views[v], objects0.Keys);
    }
  }

  /** The log grew, by states that kept the objects and have these views. */
  ghost predicate LoggedKept(log0: seq<Disk>, log: seq<Disk>, objects0: Objects, views: Views) {
    log0 <= log && forall i :: |log0| <= i < |log| ==> Kept(objects0, log[i].objects) && log[i].views == views
  }

  ghost predicate AllSafe(log0: seq<Disk>, log: seq<Disk>) {
    log0 <= log && forall i :: |log0| <= i < |log| ==> NeverDangles(log[i])
  }

  lemma KeptIsSafe(log0: seq<Disk>, log: seq<Disk>, objects0: Objects, views: Views)
    requires LoggedKept(log0, log, objects0, views) && Sane(objects0, views)
    ensures AllSafe(log0, log)
  {
    forall i | |log0| <= i < |log| ensures NeverDangles(log[i]) {
      ViewsSurvive(objects0, log[i].objects, log[i].blobs, views);
    }
  }

  lemma LogOn(log0: seq<Disk>, log: seq<Disk>, log': seq<Disk>, objects0: Objects, objects: Objects, views: Views)
    requires LoggedKept(log0, log, objects0, views) && LoggedSame(log, log', objects, views) && Kept(objects0, objects)
    ensures LoggedKept(log0, log', objects0, views)
  {
    hide Kept;
    forall i | |log0| <= i < |log'| ensures Kept(objects0, log'[i].objects) && log'[i].views == views {
      if i < |log| {
        assert log'[i] == log[i];
      }
    }
  }

  /** Write the delta and its blobs, one change at a time, stopping at the first failure. */
  method WriteDelta(delta: seq<Change>, local: Blobs, remote: Remote, hash: Bytes -> Id) returns (ok: bool)
    requires Addressed(local, hash) && Unique(delta) && forall c :: c in delta ==> c.id !in remote.objects
    modifies remote
    ensures remote.views == old(remote.views)
    ensures LoggedKept(old(remote.log), remote.log, old(remote.objects), remote.views)
    ensures exists n :: Written(old(remote.objects), remote.objects, delta, n)
    ensures ok ==> Written(old(remote.objects), remote.objects, delta, |delta|)
    ensures ok ==> forall c :: c in delta ==> HasBlobs(remote.blobs, c.atoms)
    ensures remote.reliable && (forall c :: c in delta ==> HasBlobs(local, c.atoms)) ==> ok
  {
    ghost var objects0, views0 := remote.objects, remote.views;
    assert delta[..0] == [];
    for i := 0 to |delta|
      invariant remote.views == views0 && LoggedKept(old(remote.log), remote.log, objects0, views0)
      invariant Written(objects0, remote.objects, delta, i)
      invariant forall j :: 0 <= j < i ==> HasBlobs(remote.blobs, delta[j].atoms)
    {
      ghost var before, log := remote.objects, remote.log;
      ok := remote.WriteChange(delta[i]);
      assert LoggedSame(log, remote.log, remote.objects, views0);
      LogOn(old(remote.log), log, remote.log, objects0, remote.objects, views0);
      if !ok {
        return false;
      }
      WrittenNext(objects0, before, delta, i, remote.objects);
      log := remote.log;
      ok := CopyBlobs(delta[i], local, remote, hash);
      LogOn(old(remote.log), log, remote.log, objects0, remote.objects, views0);
      if !ok {
        return false;
      }
    }
    ok := true;
  }

  /** The local side has all ancestors of the heads and all the blobs they insert or delete. */
  ghost predicate CanSend(local: Disk, heads: set<Id>) {
    && Anc(EdgesOf(local.objects), heads) <= local.objects.Keys
    && forall i :: i in Anc(EdgesOf(local.objects), heads) ==> HasBlobs(local.blobs, local.objects[i].atoms)
  }

  /** What a push added: changes the remote missed, as the local store has them. */
  ghost predicate Added(local: Objects, objects0: Objects, objects: Objects, heads: set<Id>) {
    forall i :: i in objects && i !in objects0 ==>
      i in local && objects[i] == local[i] && i in Missing(local, objects0, heads)
  }

  /**
   Push a local view: write what the remote misses, then save the united heads as its view. When the
   remote store was closed, no state of its disk has a view head with a missing ancestor, whatever
   fails on the way.
   */
  method PushLocal(local: Disk, remote: Remote, viewName: string, hash: Bytes -> Id) returns (ok: bool)
    requires Named(local.objects) && Addressed(local.blobs, hash)
    modifies remote
    ensures old(Sane(remote.objects, remote.views)) ==> AllSafe(old(remote.log), remote.log)
    ensures !ok ==> remote.views == old(remote.views)
    ensures Kept(old(remote.objects), remote.objects)
    ensures viewName !in local.views ==> !ok && remote.objects == old(remote.objects)
    ensures viewName in local.views ==>
              Added(local.objects, old(remote.objects), remote.objects, local.views[viewName])
    ensures ok ==> viewName in local.views
    ensures ok ==>
              remote.objects.Keys
              == old(remote.objects.Keys) + Missing(local.objects, old(remote.objects), local.views[viewName])
    ensures ok ==>
              remote.views
              == old(remote.views)[viewName :=
                   (if viewName in old(remote.views) then old(remote.views)[viewName] else {}) + local.views[viewName]]
    ensures ok && old(Sane(remote.objects, remote.views)) ==> Sane(remote.objects, remote.views)
    ensures ok ==> forall i :: i in remote.objects && i !in old(remote.objects) ==>
                     HasBlobs(remote.blobs, remote.objects[i].atoms)
    ensures remote.reliable && viewName in local.views && CanSend(local, local.views[viewName]) ==> ok
  {
    hide NeverDangles, Anc, EdgesOf, Missing, Sane;
    if viewName !in local.views {
      return false;
    }
    ghost var objects0, views0 := remote.objects, remote.views;
    var localHeads := local.views[viewName];
    var remoteHeads := RemoteHeads(remote.views, viewName);
    SendableIsMissing(local, objects0, localHeads);
    var delta;
    ok, delta := Delta(local.objects, remote.objects, localHeads);
    if !ok {
      return false;
    }
    ok := WriteDelta(delta, local.blobs, remote, hash);
    ghost var n :| Written(objects0, remote.objects, delta, n) && (ok ==> n == |delta|);
    WrittenObjects(local.objects, objects0, remote.objects, delta, n, localHeads);
    if old(Sane(remote.objects, remote.views)) {
      KeptIsSafe(old(remote.log), remote.log, objects0, views0);
    }
    if !ok {
      return false;
    }
    assert delta[..|delta|] == delta;
    ghost var log := remote.log;
    ok := remote.SaveView(viewName, remoteHeads + localHeads);
    if old(Sane(remote.objects, remote.views)) {
      SaneAfter(local.objects, objects0, remote.objects, views0, viewName, localHeads);
      SavedIsSafe(objects0, remote.objects, remote.blobs, views0, remote.views);
    }
  }

  /** Saving either view set over a grown closed store is safe. */
  lemma SavedIsSafe(objects0: Objects, objects: Objects, blobs: Blobs, views0: Views, views: Views)
    requires Sane(objects0, views0) && Kept(objects0, objects) && (views == views0 || Sane(objects, views))
    ensures NeverDangles(Disk(objects, blobs, views))
  {
    hide Sane, NeverDangles, Kept;
    if views == views0 {
      ViewsSurvive(objects0, objects, blobs, views);
    } else {
      KeptItself(objects);
      ViewsSurvive(objects, objects, blobs, views);
    }
  }

  lemma KeptItself(objects: Objects)
    ensures Kept(objects, objects)
  {}

  function RemoteHeads(views: Views, name: string): set<Id> {
    if name in views then views[name] else {}
  }

  /** What can be sent includes what is missing. */
  lemma SendableIsMissing(local: Disk, remote: Objects, heads: set<Id>)
    ensures Missing(local.objects, remote, heads) <= Anc(EdgesOf(local.objects), heads)
  {
    CutReaches(EdgesOf(local.objects), remote.Keys, heads);
  }

  lemma WrittenObjects(local: Objects, objects0: Objects, objects: Objects, delta: seq<Change>, n: nat, heads: set<Id>)
    requires Written(objects0, objects, delta, n)
    requires Sendable(local, objects0, delta) && Ids(delta) <= Missing(local, objects0, heads)
    ensures Kept(objects0, objects) && Added(local, objects0, objects, heads)
    ensures forall i :: i in objects && i !in objects0 ==> objects[i] in delta && objects[i].id == i
  {
    forall i | i in objects && i !in objects0
      ensures objects[i] in delta && objects[i].id == i && i in Ids(delta)
    {
      var c :| c in delta[..n] && c.id == i;
      var j :| 0 <= j < n && delta[j] == c;
    }
  }

  /** What the walk found and the remote had are closed together when the remote was closed. */
  lemma ClosedAfter(local: Objects, objects0: Objects, objects: Objects, heads: set<Id>)
    requires DepsClosed(objects0) && Kept(objects0, objects) && Added(local, objects0, objects, heads)
    requires objects.Keys == objects0.Keys + Missing(local, objects0, heads)
    ensures DepsClosed(objects) && heads <= objects.Keys
  {
    var e := Cut(EdgesOf(local), objects0.Keys);
    AncIsClosed(e, heads);
    forall i | i in objects ensures objects[i].deps <= objects.Keys {
      if i !in objects0 {
        CutDeps(EdgesOf(local), objects0.Keys, i);
        assert Deps(e, i) <= Anc(e, heads);
      }
    }
  }

  lemma SaneAfter(local: Objects, objects0: Objects, objects: Objects, views: Views, name: string, heads: set<Id>)
    requires Sane(objects0, views) && Kept(objects0, objects) && Added(local, objects0, objects, heads)
    requires objects.Keys == objects0.Keys + Missing(local, objects0, heads)
    ensures Sane(objects, views[name := RemoteHeads(views, name) + heads])
  {
    ClosedAfter(local, objects0, objects, heads);
    hide DepsClosed, Missing, Kept, Added;
  }

  // ---- pushing again after a failure ---------------------------------------

  /** What an earlier, broken-off push of the same heads left behind on a closed store. */
  ghost predicate BrokenOff(local: Objects, objects0: Objects, objects1: Objects, heads: set<Id>) {
    DepsClosed(objects0) && Kept(objects0, objects1) && Added(local, objects0, objects1, heads)
  }

  /** Both sides together; an id determines its change. */
  ghost function Joint(local: Objects, objects: Objects): Objects {
    local + objects
  }

  /**
   When pushing again repairs a broken-off push: exactly when the walk still finds everything that what
   was written depends on. It stops at what was written, so a dependency that only they name is lost.
   */
  lemma RetryIff(local: Objects, objects0: Objects, objects1: Objects, objects2: Objects, heads: set<Id>)
    requires BrokenOff(local, objects0, objects1, heads)
    requires Kept(objects1, objects2) && Added(local, objects1, objects2, heads)
    requires objects2.Keys == objects1.Keys + Missing(local, objects1, heads)
    ensures Anc(EdgesOf(objects2), heads) <= objects2.Keys
       <==> Owed(EdgesOf(objects1), objects1.Keys) <= Missing(local, objects1, heads)
  {
    hide Anc, EdgesOf, Joint, BrokenOff, Kept, Added, Owed, PartOn, Walked, Missing;
    JointOwes(local, objects0, objects1, objects2, heads);
    JointWalks(local, objects0, objects1, heads);
    SecondWalkIff(EdgesOf(Joint(local, objects1)), EdgesOf(objects2), objects0.Keys, objects1.Keys, heads);
  }

  lemma JointWalks(local: Objects, objects0: Objects, objects1: Objects, heads: set<Id>)
    requires BrokenOff(local, objects0, objects1, heads)
    ensures Walked(EdgesOf(Joint(local, objects1)), objects0.Keys, heads) == Missing(local, objects0, heads)
    ensures Walked(EdgesOf(Joint(local, objects1)), objects1.Keys, heads) == Missing(local, objects1, heads)
  {
    hide Anc;
    var e := EdgesOf(Joint(local, objects1));
    assert Cut(e, objects0.Keys) == Cut(EdgesOf(local), objects0.Keys);
    assert Cut(e, objects1.Keys) == Cut(EdgesOf(local), objects1.Keys);
  }

  lemma JointOwes(local: Objects, objects0: Objects, objects1: Objects, objects2: Objects, heads: set<Id>)
    requires BrokenOff(local, objects0, objects1, heads)
    requires Kept(objects1, objects2) && Added(local, objects1, objects2, heads)
    requires objects2.Keys == objects1.Keys + Missing(local, objects1, heads)
    ensures var e := EdgesOf(Joint(local, objects1));
            && Closed(e, objects0.Keys) && PartOn(EdgesOf(objects2), e, objects2.Keys)
            && Owed(e, objects1.Keys) == Owed(EdgesOf(objects1), objects1.Keys)
            && objects0.Keys <= objects1.Keys <= objects0.Keys + Missing(local, objects0, heads)
            && EdgesOf(objects2).Keys == objects2.Keys
  {
    var joint := Joint(local, objects1);
    JointKeeps(local, objects0, objects1, objects2, heads);
    hide Missing, Anc, Joint, Kept, Added;
    EdgesKeep(objects0, joint);
    EdgesKeep(objects1, joint);
    EdgesKeep(objects2, joint);
    hide EdgesOf;
  }

  /** The three states of the remote store are parts of both sides together. */
  lemma JointKeeps(local: Objects, objects0: Objects, objects1: Objects, objects2: Objects, heads: set<Id>)
    requires BrokenOff(local, objects0, objects1, heads)
    requires Kept(objects1, objects2) && Added(local, objects1, objects2, heads)
    ensures Kept(objects0, Joint(local, objects1)) && Kept(objects1, Joint(local, objects1))
    ensures Kept(objects2, Joint(local, objects1)) && DepsClosed(objects0)
    ensures objects0.Keys <= objects1.Keys <= objects0.Keys + Missing(local, objects0, heads)
  {
    hide Missing;
  }

  lemma EdgesKeep(objects: Objects, joint: Objects)
    requires Kept(objects, joint)
    ensures PartOn(EdgesOf(objects), EdgesOf(joint), objects.Keys)
    ensures Owed(EdgesOf(joint), objects.Keys) == Owed(EdgesOf(objects), objects.Keys)
    ensures DepsClosed(objects) ==> Closed(EdgesOf(joint), objects.Keys)
  {}

  lemma DepIsFound(e: Edges, x: Id, d: Id)
    requires d in Deps(e, x)
    ensures {x, d} <= Anc(e, {x})
  {
    hide Anc;
    AncIsClosed(e, {x});
    assert Deps(e, x) <= Anc(e, {x});
  }

  lemma LeafIsAll(e: Edges, x: Id)
    requires Deps(e, x) == {}
    ensures Anc(e, {x}) == {x}
  {
    hide Anc;
    AncIsClosed(e, {x});
    AncIsLeast(e, {x}, {x});
  }

  lemma PairIsAll(e: Edges, x: Id, d: Id)
    requires Deps(e, x) == {d} && Deps(e, d) == {}
    ensures Anc(e, {x}) == {x, d}
  {
    hide Anc, Reaches, IsPath, Universe;
    DepIsFound(e, x, d);
    PairIsClosed(e, x, d);
    hide Closed, Deps;
    AncIsLeast(e, {x}, {x, d});
  }

  lemma PairIsClosed(e: Edges, x: Id, d: Id)
    requires Deps(e, x) == {d} && Deps(e, d) == {}
    ensures Closed(e, {x, d})
  {
    forall y | y in {x, d} ensures Deps(e, y) <= {x, d} {
      if y == x {
        assert Deps(e, y) == {d};
      }
    }
  }

  /** A child is written and its dependency is not: pushing again saves a head with a missing ancestor. */
  lemma RetryDangles(local: Objects, first: Objects, c: Change, d: Change)
    requires c.id == 0 && c.deps == {} && d.id == 1 && d.deps == {0}
    requires local == map[0 := c, 1 := d] && first == map[1 := d]
    ensures Missing(local, map[], {1}) == {0, 1} && Written(map[], first, [d, c], 1)
    ensures BrokenOff(local, map[], first, {1}) && Missing(local, first, {1}) == {}
    ensures !NeverDangles(Disk(first, map[], map["main" := {1}]))
  {
    hide NeverDangles, Missing;
    FirstWalk(local, c, d);
    SecondWalk(local, first);
    FirstDangles(first, d);
    FirstWritten(first, c, d);
  }

  lemma FirstWritten(first: Objects, c: Change, d: Change)
    requires c.id == 0 && d.id == 1 && first == map[1 := d]
    ensures Written(map[], first, [d, c], 1)
  {
    assert [d, c][..1] == [d] && Ids([d]) == {1};
  }

  lemma FirstWalk(local: Objects, c: Change, d: Change)
    requires c.deps == {} && d.deps == {0} && local == map[0 := c, 1 := d]
    ensures Missing(local, map[], {1}) == {0, 1}
  {
    hide Anc;
    var e := Cut(EdgesOf(local), {});
    assert Deps(e, 1) == {0} && Deps(e, 0) == {};
    PairIsAll(e, 1, 0);
    var none: Objects := map[];
    assert none.Keys == {};
  }

  lemma SecondWalk(local: Objects, first: Objects)
    requires first.Keys == {1}
    ensures Missing(local, first, {1}) == {}
  {
    hide Anc;
    CutDeps(EdgesOf(local), first.Keys, 1);
    LeafIsAll(Cut(EdgesOf(local), first.Keys), 1);
  }

  lemma FirstDangles(first: Objects, d: Change)
    requires first == map[1 := d] && d.deps == {0}
    ensures !NeverDangles(Disk(first, map[], map["main" := {1}]))
  {
    hide Anc;
    var disk := Disk(first, map[], map["main" := {1}]);
    assert Deps(EdgesOf(first), 1) == {0};
    DepIsFound(EdgesOf(first), 1, 0);
    assert "main" in disk.views && disk.views["main"] == {1};
  }
}
