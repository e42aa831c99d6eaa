/** The richer patch algebra: eight atoms, a blob store, blob-aware commutation (`crates/arc-algebra`). */
module PatchAlgebra {
  import opened Base
  import opened Cells
  import A = Algebra

  type State = map<NodePath, Bytes>
  type Blame = map<NodePath, Id>

  datatype Coordinate = Coordinate(namespace: string, repo: string, hash: Id)

  datatype Atom =
    | Insert(at: NodePath, contentHash: Id)
    | Delete(at: NodePath, priorHash: Id)
    | Move(from: NodePath, to: NodePath)
    | SemanticsPreserving(at: NodePath, description: string)
    | Directory(path: NodePath)
    | Blob(file: string, hash: Id, size: nat)
    | Mount(path: NodePath, coordinate: Coordinate)
    | Conflict(bases: seq<Id>, sides: seq<Id>, at: NodePath)
  {
    /** Every path the atom touches; a blob names a file, not a path. */
    function Paths(): seq<NodePath> {
      match this
      case Insert(at, _) => [at]
      case Delete(at, _) => [at]
      case Move(from, to) => [from, to]
      case SemanticsPreserving(at, _) => [at]
      case Directory(path) => [path]
      case Blob(_, _, _) => []
      case Mount(path, _) => [path]
      case Conflict(_, _, at) => [at]
    }
  }

  datatype Author =
    | Human(name: string, email: string, key: Bytes)
    | AI(model: string, humanSponsor: Bytes)
    | Server(canonicalId: string, key: Bytes)
    | Transient(sessionId: string, key: Bytes)

  datatype Change = Change(id: Id, deps: set<Id>, atoms: seq<Atom>, intent: string, author: Author)

  /** What replay reads besides the change: the blobs, the ignore rules and the three token encoders. */
  datatype Env = Env(
    blobs: map<Id, Bytes>,
    ignore: A.Ignore,
    blobRef: Id -> Bytes,
    mountRef: Coordinate -> Bytes,
    conflictRef: (seq<Id>, seq<Id>, NodePath) -> Bytes)

  /** The sparse boundary over file paths; a full one accepts everything. */
  datatype Matcher = Matcher(full: bool, matchesFile: string -> bool) {
    predicate MatchesNode(p: NodePath) {
      full || (|p| >= 2 && (p[0] == "file" || p[0] == "dir") && matchesFile(p[1]))
    }

    predicate MatchesAtom(a: Atom) {
      full || exists p :: p in a.Paths() && MatchesNode(p)
    }
  }

  // ---- replay --------------------------------------------------------------

  ghost predicate Blocked(author: Author, a: Atom, env: Env) {
    author.AI? && exists p :: p in a.Paths() && A.Restricted(p, env.ignore)
  }

  /** What an atom that passes the gate writes. */
  ghost function Effect(a: Atom, env: Env): Write<Bytes> {
    match a
    case Insert(at, h) => if h in env.blobs then Put(at, env.blobs[h]) else Fail
    case Delete(at, _) => Remove(at)
    case Directory(path) => Ensure(path, [])
    case Move(_, _) => Fail
    case SemanticsPreserving(_, _) => Fail
    case Blob(file, h, _) => Put(["file", file], env.blobRef(h))
    case Mount(path, coordinate) => Put(path, env.mountRef(coordinate))
    case Conflict(bases, sides, at) => Put(at, env.conflictRef(bases, sides, at))
  }

  ghost function WriteOf(author: Author, a: Atom, env: Env): Write<Bytes> {
    if Blocked(author, a, env) then Fail else Effect(a, env)
  }

  ghost function MarkOf(author: Author, a: Atom, env: Env, id: Id): Write<Id> {
    match WriteOf(author, a, env)
    case Put(k, _) => Put(k, id)
    case Remove(k) => Drop(k)
    case Drop(k) => Drop(k)
    case Ensure(k, _) => Put(k, id)
    case Fail => Fail
  }

  /** The atoms inside the boundary; atoms the gate blocks stay, since the gate comes first. */
  ghost function InScope(c: Change, env: Env, m: Matcher, n: nat): seq<Atom>
    requires n <= |c.atoms|
  {
    if n == 0 then [] else
      InScope(c, env, m, n - 1)
      + if Blocked(c.author, c.atoms[n - 1], env) || m.MatchesAtom(c.atoms[n - 1]) then [c.atoms[n - 1]] else []
  }

  ghost function WritesOf(author: Author, atoms: seq<Atom>, env: Env): (ws: seq<Write<Bytes>>)
    ensures |ws| == |atoms|
  {
    seq(|atoms|, i requires 0 <= i < |atoms| => WriteOf(author, atoms[i], env))
  }

  ghost function MarksOf(author: Author, atoms: seq<Atom>, env: Env, id: Id): (ws: seq<Write<Id>>)
    ensures |ws| == |atoms|
  {
    seq(|atoms|, i requires 0 <= i < |atoms| => MarkOf(author, atoms[i], env, id))
  }

  ghost function Writes(c: Change, env: Env): seq<Write<Bytes>> {
    WritesOf(c.author, c.atoms, env)
  }

  ghost function ScopedWrites(c: Change, env: Env, m: Matcher): seq<Write<Bytes>> {
    WritesOf(c.author, InScope(c, env, m, |c.atoms|), env)
  }

  lemma RunOne<V>(s: map<NodePath, V>, ws: seq<Write<V>>, w: Write<V>)
    requires Run(s, ws).Some?
    ensures Run(s, ws + [w]) == Apply(Run(s, ws).value, w)
  {
    A.RunSnoc(s, ws + [w], |ws|);
    assert (ws + [w])[..|ws|] == ws && (ws + [w])[..|ws| + 1] == ws + [w];
  }

  lemma WritesSnoc(author: Author, atoms: seq<Atom>, a: Atom, env: Env)
    ensures WritesOf(author, atoms + [a], env) == WritesOf(author, atoms, env) + [WriteOf(author, a, env)]
  {}

  lemma MarksSnoc(author: Author, atoms: seq<Atom>, a: Atom, env: Env, id: Id)
    ensures MarksOf(author, atoms + [a], env, id) == MarksOf(author, atoms, env, id) + [MarkOf(author, a, env, id)]
  {}

  lemma {:induction false} StuckStays(c: Change, env: Env, m: Matcher, s: State, n: nat)
    requires n <= |c.atoms| && Run(s, WritesOf(c.author, InScope(c, env, m, n), env)).None?
    ensures Run(s, ScopedWrites(c, env, m)).None?
    decreases |c.atoms| - n
  {
    if n < |c.atoms| {
      var before := InScope(c, env, m, n);
      var a := c.atoms[n];
      if InScope(c, env, m, n + 1) == before + [a] {
        WritesSnoc(c.author, before, a, env);
        RunConcat(s, WritesOf(c.author, before, env), [WriteOf(c.author, a, env)]);
      } else {
        assert InScope(c, env, m, n + 1) == before;
      }
      StuckStays(c, env, m, s, n + 1);
    }
  }

  /** The state being materialised, with the blame map when the caller keeps one. */
  class Workspace {
    var state: State
    var blame: Option<Blame>

    constructor (withBlame: bool)
      ensures state == map[] && blame == if withBlame then Some(map[]) else None
    {
      state := map[];
      blame := if withBlame then Some(map[]) else None;
    }

    /** The first `n` atoms, as far as they are in scope, have taken effect. */
    ghost predicate After(s: State, b: Option<Blame>, c: Change, env: Env, m: Matcher, n: nat)
      requires n <= |c.atoms|
      reads this
    {
      && Run(s, WritesOf(c.author, InScope(c, env, m, n), env)) == Some(state)
      && match b
         case None => blame == None
         case Some(marks) => blame.Some? && Run(marks, MarksOf(c.author, InScope(c, env, m, n), env, c.id)) == blame
    }

    /** The next atom is in scope, or refused by the gate, and fails. */
    ghost predicate FailsNext(c: Change, env: Env, m: Matcher, n: nat)
      requires n < |c.atoms|
      reads this
    {
      && InScope(c, env, m, n + 1) == InScope(c, env, m, n) + [c.atoms[n]]
      && Apply(state, WriteOf(c.author, c.atoms[n], env)).None?
    }

    /** Replay with a sparse boundary: atoms outside it are skipped before any blob is read. */
    method ApplyChangeScoped(c: Change, env: Env, sparse: Option<Matcher>) returns (ok: bool)
      modifies this
      ensures ok ==> After(old(state), old(blame), c, env, Scope(sparse), |c.atoms|)
      ensures ok <==> Run(old(state), ScopedWrites(c, env, Scope(sparse))).Some?
      ensures ok ==> Some(state) == Run(old(state), ScopedWrites(c, env, Scope(sparse)))
      ensures !ok ==> exists n :: 0 <= n < |c.atoms| && After(old(state), old(blame), c, env, Scope(sparse), n)
                               && FailsNext(c, env, Scope(sparse), n)
    {
      hide Run, WritesOf, MarksOf, Effect, WriteOf, MarkOf, Blocked;
      ghost var m := Scope(sparse);
      NothingApplied(state, c, env);
      if blame.Some? {
        NothingMarked(blame.value, c, env);
      }
      for i := 0 to |c.atoms|
        invariant After(old(state), old(blame), c, env, m, i)
      {
        var a := c.atoms[i];
        ghost var before := InScope(c, env, m, i);
        var blocked := IsBlocked(c.author, a, env);
        if !blocked && sparse.Some? && !sparse.value.MatchesAtom(a) {
          assert InScope(c, env, m, i + 1) == before;
          continue;
        }
        assert InScope(c, env, m, i + 1) == before + [a];
        AtomStep(old(state), old(blame), c, env, before, a);
        if blocked {
          BlockedFails(c.author, a, env, state);
          StuckStays(c, env, m, old(state), i + 1);
          assert FailsNext(c, env, m, i);
          return false;
        }
        ok := Execute(c.author, a, env, c.id);
        if !ok {
          StuckStays(c, env, m, old(state), i + 1);
          assert After(old(state), old(blame), c, env, m, i) && FailsNext(c, env, m, i);
          return false;
        }
      }
      return true;
    }

    /** One atom that passed the gate. */
    method Execute(ghost author: Author, a: Atom, env: Env, id: Id) returns (ok: bool)
      requires !Blocked(author, a, env)
      modifies this
      ensures ok ==> Some(state) == Apply(old(state), WriteOf(author, a, env))
      ensures ok ==> match old(blame)
                     case None => blame == None
                     case Some(b) => blame.Some? && blame == Apply(b, MarkOf(author, a, env, id))
      ensures !ok ==> Apply(old(state), WriteOf(author, a, env)).None? && state == old(state) && blame == old(blame)
    {
      match a {
        case Insert(at, h) =>
          if h !in env.blobs {
            return false;
          }
          Store(at, env.blobs[h], id);
        case Delete(at, _) =>
          if at !in state {
            return false;
          }
          state := state - {at};
          if blame.Some? {
            blame := Some(blame.value - {at});
          }
        case Directory(path) =>
          if path !in state {
            state := state[path := []];
          }
          if blame.Some? {
            blame := Some(blame.value[path := id]);
          }
        case Move(_, _) =>
          return false;
        case SemanticsPreserving(_, _) =>
          return false;
        case Blob(file, h, _) =>
          Store(["file", file], env.blobRef(h), id);
        case Mount(path, coordinate) =>
          Store(path, env.mountRef(coordinate), id);
        case Conflict(bases, sides, at) =>
          Store(at, env.conflictRef(bases, sides, at), id);
      }
      return true;
    }

    method Store(k: NodePath, v: Bytes, id: Id)
      modifies this
      ensures state == old(state)[k := v]
      ensures blame == match old(blame) case None => None case Some(b) => Some(b[k := id])
    {
      state := state[k := v];
      if blame.Some? {
        blame := Some(blame.value[k := id]);
      }
    }

    /** The first `n` atoms, and only those, have taken effect. */
    ghost predicate AfterAtoms(s: State, b: Option<Blame>, c: Change, env: Env, n: nat)
      requires n <= |c.atoms|
      reads this
    {
      && Run(s, WritesOf(c.author, c.atoms[..n], env)) == Some(state)
      && match b
         case None => blame == None
         case Some(marks) => blame.Some? && Run(marks, MarksOf(c.author, c.atoms[..n], env, c.id)) == blame
    }

    method ApplyChange(c: Change, env: Env) returns (ok: bool)
      modifies this
      ensures ok <==> Run(old(state), Writes(c, env)).Some?
      ensures ok ==> AfterAtoms(old(state), old(blame), c, env, |c.atoms|)
      ensures ok ==> Some(state) == Run(old(state), Writes(c, env))
      ensures !ok ==> exists n :: 0 <= n < |c.atoms| && AfterAtoms(old(state), old(blame), c, env, n)
                               && Apply(state, WriteOf(c.author, c.atoms[n], env)).None?
    {
      hide Run, WritesOf, MarksOf, Apply, WriteOf;
      forall n | 0 <= n <= |c.atoms| ensures InScope(c, env, Scope(None), n) == c.atoms[..n] {
        FullScope(c, env, n);
      }
      assert c.atoms[..|c.atoms|] == c.atoms;
      ok := ApplyChangeScoped(c, env, None);
      assert ok ==> After(old(state), old(blame), c, env, Scope(None), |c.atoms|);
      if !ok {
        ghost var n :| 0 <= n < |c.atoms| && After(old(state), old(blame), c, env, Scope(None), n)
                       && FailsNext(c, env, Scope(None), n);
        assert AfterAtoms(old(state), old(blame), c, env, n);
      }
    }
  }

  /** The ignore gate: only AI authors are checked, path by path. */
  method IsBlocked(author: Author, a: Atom, env: Env) returns (blocked: bool)
    ensures blocked <==> Blocked(author, a, env)
  {
    if author.AI? {
      var paths := a.Paths();
      for j := 0 to |paths|
        invariant forall k :: 0 <= k < j ==> !A.Restricted(paths[k], env.ignore)
      {
        var p := paths[j];
        if |p| >= 2 && (p[0] == "file" || p[0] == "dir") {
          if p[1] == ".agentignore" || env.ignore(p[1], p[0] != "file") {
            assert A.Restricted(p, env.ignore) && p in a.Paths();
            return true;
          }
        }
      }
    }
    return false;
  }

  lemma BlockedFails(author: Author, a: Atom, env: Env, s: State)
    requires Blocked(author, a, env)
    ensures Apply(s, WriteOf(author, a, env)).None?
  {}

  lemma NothingApplied(s: State, c: Change, env: Env)
    ensures Run(s, WritesOf(c.author, [], env)) == Some(s)
  {}

  lemma NothingMarked(b: Blame, c: Change, env: Env)
    ensures Run(b, MarksOf(c.author, [], env, c.id)) == Some(b)
  {}

  ghost function Scope(sparse: Option<Matcher>): Matcher {
    match sparse
    case None => Matcher(true, _ => true)
    case Some(m) => m
  }

  lemma AtomStep(s: State, b: Option<Blame>, c: Change, env: Env, before: seq<Atom>, a: Atom)
    requires Run(s, WritesOf(c.author, before, env)).Some?
    requires b.Some? ==> Run(b.value, MarksOf(c.author, before, env, c.id)).Some?
    ensures Run(s, WritesOf(c.author, before + [a], env))
         == Apply(Run(s, WritesOf(c.author, before, env)).value, WriteOf(c.author, a, env))
    ensures b.Some? ==>
              Run(b.value, MarksOf(c.author, before + [a], env, c.id))
              == Apply(Run(b.value, MarksOf(c.author, before, env, c.id)).value, MarkOf(c.author, a, env, c.id))
  {
    WritesSnoc(c.author, before, a, env);
    RunOne(s, WritesOf(c.author, before, env), WriteOf(c.author, a, env));
    if b.Some? {
      MarksSnoc(c.author, before, a, env, c.id);
      RunOne(b.value, MarksOf(c.author, before, env, c.id), MarkOf(c.author, a, env, c.id));
    }
  }

  lemma {:induction false} FullScope(c: Change, env: Env, n: nat)
    requires n <= |c.atoms|
    ensures InScope(c, env, Scope(None), n) == c.atoms[..n]
  {
    if n > 0 {
      FullScope(c, env, n - 1);
      assert c.atoms[..n] == c.atoms[..n - 1] + [c.atoms[n - 1]];
    }
  }

  // ---- commutation ---------------------------------------------------------

  /** The repository file an atom's path lies in. */
  function FilePathFor(a: Atom): Option<string> {
    match a
    case Insert(at, _) => FileOf(at)
    case Delete(at, _) => FileOf(at)
    case SemanticsPreserving(at, _) => FileOf(at)
    case Conflict(_, _, at) => FileOf(at)
    case Move(from, to) => if FileOf(from).Some? then FileOf(from) else FileOf(to)
    case Directory(path) => FileOf(path)
    case Mount(path, _) => FileOf(path)
    case Blob(_, _, _) => None
  }

  function FileOf(p: NodePath): Option<string> {
    if |p| >= 2 && p[0] == "file" then Some(p[1]) else None
  }

  /** Two blobs of one file differ, or one side tracks a file the other side edits inside. */
  predicate BlobConflicts(a: Atom, b: Atom) {
    if a.Blob? && b.Blob? then a.file == b.file && (a.hash != b.hash || a.size != b.size)
    else if a.Blob? then FilePathFor(b) == Some(a.file)
    else if b.Blob? then FilePathFor(a) == Some(b.file)
    else false
  }

  predicate AtomsConflict(a: Atom, b: Atom) {
    !a.Move? && !b.Move? &&
    (BlobConflicts(a, b) || exists p, q :: p in a.Paths() && q in b.Paths() && A.PathsOverlap(p, q))
  }

  predicate AtomsDisjoint(a: seq<Atom>, b: seq<Atom>) {
    forall x, y :: x in a && y in b ==> !AtomsConflict(x, y)
  }

  predicate Commutes(a: Change, b: Change) {
    if a.id in b.deps || b.id in a.deps then false else AtomsDisjoint(a.atoms, b.atoms)
  }

  /** The atom names the path; a blob names a file and no path. */
  ghost predicate Names(a: Atom, p: NodePath) {
    || ((a.Insert? || a.Delete? || a.SemanticsPreserving? || a.Conflict?) && p == a.at)
    || (a.Move? && (p == a.from || p == a.to))
    || ((a.Directory? || a.Mount?) && p == a.path)
  }

  lemma PathsAreNamed(a: Atom, p: NodePath)
    ensures p in a.Paths() <==> Names(a, p)
  {
    assert p in a.Paths() <==> exists i :: 0 <= i < |a.Paths()| && a.Paths()[i] == p;
    match a
    case Insert(at, _) => assert a.Paths() == [at];
    case Delete(at, _) => assert a.Paths() == [at];
    case Move(from, to) => assert a.Paths() == [from, to];
    case SemanticsPreserving(at, _) => assert a.Paths() == [at];
    case Directory(path) => assert a.Paths() == [path];
    case Blob(_, _, _) => assert a.Paths() == [];
    case Mount(path, _) => assert a.Paths() == [path];
    case Conflict(_, _, at) => assert a.Paths() == [at];
  }

  /** The path lies in the file. */
  ghost predicate InFile(p: NodePath, file: string) {
    |p| >= 2 && p[0] == "file" && p[1] == file
  }

  /**
   Two atoms leave each other alone: no prefix-related paths, no two versions of one blob, no path in
   the other's blob.
   */
  ghost predicate Apart(x: Atom, y: Atom) {
    && (forall p, q :: Names(x, p) && Names(y, q) ==> !A.PrefixRelated(p, q))
    && (x.Blob? && y.Blob? && x.file == y.file ==> x.hash == y.hash && x.size == y.size)
    && (x.Blob? ==> forall q :: Names(y, q) ==> !InFile(q, x.file))
    && (y.Blob? ==> forall p :: Names(x, p) ==> !InFile(p, y.file))
  }

  lemma ApartIff(x: Atom, y: Atom)
    requires !x.Move? && !y.Move?
    ensures !AtomsConflict(x, y) <==> Apart(x, y)
  {
    hide A.PathsOverlap;
    forall p, q ensures A.PathsOverlap(p, q) <==> A.PrefixRelated(p, q) {
      A.PathsOverlapIff(p, q);
    }
    forall p ensures (p in x.Paths() <==> Names(x, p)) && (p in y.Paths() <==> Names(y, p)) {
      PathsAreNamed(x, p);
      PathsAreNamed(y, p);
    }
    BlobApartIff(x, y);
  }

  lemma BlobApartIff(x: Atom, y: Atom)
    requires !x.Move? && !y.Move?
    ensures !BlobConflicts(x, y)
       <==> && (x.Blob? && y.Blob? && x.file == y.file ==> x.hash == y.hash && x.size == y.size)
            && (x.Blob? ==> forall q :: Names(y, q) ==> !InFile(q, x.file))
            && (y.Blob? ==> forall p :: Names(x, p) ==> !InFile(p, y.file))
  {
    FileIsNamed(x);
    FileIsNamed(y);
  }

  lemma FileIsNamed(a: Atom)
    requires !a.Move?
    ensures forall file :: FilePathFor(a) == Some(file) <==> exists p :: Names(a, p) && InFile(p, file)
  {
    forall file ensures FilePathFor(a) == Some(file) <==> exists p :: Names(a, p) && InFile(p, file) {
      if FilePathFor(a) == Some(file) {
        assert a.Paths() != [] && Names(a, a.Paths()[0]) && InFile(a.Paths()[0], file);
      }
    }
  }

  /** A move lies in the file it comes from, or in the one it goes to when it comes from none. */
  lemma FileOfMove(a: Atom, file: string)
    requires a.Move?
    ensures FilePathFor(a) == Some(file)
       <==> InFile(a.from, file) || (!(|a.from| >= 2 && a.from[0] == "file") && InFile(a.to, file))
  {}

  /**
   The check passes exactly when neither change names the other and their atoms, moves aside, leave
   each other alone.
   */
  lemma CommutesIff(a: Change, b: Change)
    ensures Commutes(a, b)
       <==> && a.id !in b.deps && b.id !in a.deps
            && forall x, y :: x in a.atoms && y in b.atoms && !x.Move? && !y.Move? ==> Apart(x, y)
  {
    hide Apart, BlobConflicts;
    forall x: Atom, y: Atom | !x.Move? && !y.Move? ensures !AtomsConflict(x, y) <==> Apart(x, y) {
      ApartIff(x, y);
    }
    hide AtomsConflict;
    MovesNeverConflict(a, b);
  }

  lemma MovesNeverConflict(a: Change, b: Change)
    ensures forall x, y :: x in a.atoms && y in b.atoms && (x.Move? || y.Move?) ==> !AtomsConflict(x, y)
  {}

  /** Two unrelated changes that track the same blob commute. */
  lemma SameBlobCommutes(a: Change, b: Change, file: string, hash: Id, size: nat)
    requires a.id !in b.deps && b.id !in a.deps && a.atoms == b.atoms == [Blob(file, hash, size)]
    ensures Commutes(a, b)
  {}

  // ---- the gate, and what an atom does -------------------------------------

  /** An atom is refused exactly when its author is an AI and it names a guarded path. */
  lemma GateIff(author: Author, a: Atom, env: Env)
    ensures Blocked(author, a, env) <==> author.AI? && exists p :: Names(a, p) && A.Guarded(p, env.ignore)
  {
    forall p ensures p in a.Paths() <==> Names(a, p) {
      PathsAreNamed(a, p);
    }
    forall p ensures A.Restricted(p, env.ignore) <==> A.Guarded(p, env.ignore) {
      assert "file" != "dir";
    }
  }

  /** A change of an AI author that names a guarded path never replays; any other replays as a human's would. */
  lemma GateExact(c: Change, human: Change, env: Env, s: State)
    requires human.author.Human? && human == c.(author := human.author)
    ensures Run(s, Writes(c, env))
         == if c.author.AI? && exists a, p :: a in c.atoms && Names(a, p) && A.Guarded(p, env.ignore) then None
            else Run(s, Writes(human, env))
  {
    if a, p :| c.author.AI? && a in c.atoms && Names(a, p) && A.Guarded(p, env.ignore) {
      GateIff(c.author, a, env);
      var i :| 0 <= i < |c.atoms| && c.atoms[i] == a;
      assert Writes(c, env)[i].Fail?;
      RunSucceeds(s, Writes(c, env));
    } else {
      forall i | 0 <= i < |c.atoms| ensures Writes(c, env)[i] == Writes(human, env)[i] {
        GateIff(c.author, c.atoms[i], env);
      }
      assert Writes(c, env) == Writes(human, env);
    }
  }

  /** No rules let an AI author touch the ignore file: such a change never replays. */
  lemma IgnoreFileIsSafe(c: Change, a: Atom, p: NodePath, env: Env, s: State)
    requires c.author.AI? && a in c.atoms && Names(a, p)
    requires |p| >= 2 && (p[0] == "file" || p[0] == "dir") && p[1] == ".agentignore"
    ensures Run(s, Writes(c, env)).None?
  {
    GateExact(c, c.(author := Human("", "", [])), env, s);
  }

  /** The key an atom with a replay writes: the path it names, or the path of its file. */
  ghost function Target(a: Atom): NodePath {
    match a
    case Insert(at, _) => at
    case Delete(at, _) => at
    case Directory(path) => path
    case Blob(file, _, _) => ["file", file]
    case Mount(path, _) => path
    case Conflict(_, _, at) => at
    case Move(from, _) => from
    case SemanticsPreserving(at, _) => at
  }

  /** What an atom that passes the gate does to the cell of every key, and when it fails. */
  lemma AtomMeans(author: Author, a: Atom, env: Env, s: State, k: NodePath)
    requires !Blocked(author, a, env)
    ensures var r := Apply(s, WriteOf(author, a, env));
            && (r.None? <==> || a.Move? || a.SemanticsPreserving? || (a.Insert? && a.contentHash !in env.blobs)
                             || (a.Delete? && a.at !in s))
            && (r.Some? && k != Target(a) ==> Get(r.value, k) == Get(s, k))
            && (r.Some? && a.Insert? ==> Get(r.value, a.at) == Some(env.blobs[a.contentHash]))
            && (r.Some? && a.Delete? ==> Get(r.value, a.at) == None)
            && (r.Some? && a.Directory? ==>
                  Get(r.value, a.path) == if a.path in s then Get(s, a.path) else Some([]))
            && (r.Some? && a.Blob? ==> Get(r.value, ["file", a.file]) == Some(env.blobRef(a.hash)))
            && (r.Some? && a.Mount? ==> Get(r.value, a.path) == Some(env.mountRef(a.coordinate)))
            && (r.Some? && a.Conflict? ==> Get(r.value, a.at) == Some(env.conflictRef(a.bases, a.sides, a.at)))
  {}

  /** What it does to the blame of every key. */
  lemma AtomMarks(author: Author, a: Atom, env: Env, id: Id, s: State, b: Blame, k: NodePath)
    requires Apply(s, WriteOf(author, a, env)).Some?
    ensures Apply(b, MarkOf(author, a, env, id)).Some?
    ensures Get(Apply(b, MarkOf(author, a, env, id)).value, k)
         == if k != Target(a) then Get(b, k) else if a.Delete? then None else Some(id)
  {}

  /**
   What a boundary sees: everything when it is full, else the atoms that name a node of a file or
   directory it matches.
   */
  lemma MatchesAtomIff(m: Matcher, a: Atom)
    ensures m.MatchesAtom(a)
       <==> m.full || exists p :: Names(a, p) && |p| >= 2 && (p[0] == "file" || p[0] == "dir") && m.matchesFile(p[1])
  {
    forall p ensures p in a.Paths() <==> Names(a, p) {
      PathsAreNamed(a, p);
    }
  }

  /** In scope are the atoms the gate refuses and those the boundary sees. */
  lemma {:induction false} InScopeIff(c: Change, env: Env, m: Matcher, n: nat, a: Atom)
    requires n <= |c.atoms|
    ensures a in InScope(c, env, m, n) <==> a in c.atoms[..n] && (Blocked(c.author, a, env) || m.MatchesAtom(a))
  {
    hide Blocked, Matcher.MatchesAtom;
    if n > 0 {
      InScopeIff(c, env, m, n - 1, a);
      assert c.atoms[..n] == c.atoms[..n - 1] + [c.atoms[n - 1]];
      assert a in c.atoms[..n] <==> a in c.atoms[..n - 1] || a == c.atoms[n - 1];
    }
  }

  /** Two atoms that do not conflict write different keys, or write the same blob token to the same key. */
  lemma DisjointEffects(a: Atom, b: Atom, env: Env)
    requires !AtomsConflict(a, b)
    ensures var (v, w) := (Effect(a, env), Effect(b, env)); v.Fail? || w.Fail? || v.key != w.key || (v.Put? && v == w)
  {
    var v, w := Effect(a, env), Effect(b, env);
    if !v.Fail? && !w.Fail? {
      EffectKey(a, env);
      EffectKey(b, env);
      assert A.PathsOverlap(v.key, v.key);
    }
  }

  /** An atom other than a blob writes one of its own paths, a blob the path of its file. */
  lemma EffectKey(a: Atom, env: Env)
    requires !Effect(a, env).Fail?
    ensures a.Blob? ==> FileOf(Effect(a, env).key) == Some(a.file)
    ensures !a.Blob? ==> Effect(a, env).key in a.Paths() && !a.Move? && FilePathFor(a) == FileOf(Effect(a, env).key)
  {}

  lemma {:induction false} AllPuts(c: Option<Bytes>, ws: seq<Write<Bytes>>, w: Write<Bytes>)
    requires ws != [] && w.Put? && forall v :: v in ws ==> v == w
    ensures RunCell(c, ws) == Some(Some(w.val))
    decreases |ws|
  {
    assert ws[0] in ws;
    if |ws| > 1 {
      assert forall v :: v in ws[1..] ==> v in ws;
      AllPuts(Some(w.val), ws[1..], w);
    } else {
      assert ws[1..] == [];
    }
  }

  lemma WriteFrom(c: Change, env: Env, k: NodePath, w: Write<Bytes>) returns (a: Atom)
    requires w in Proj(Writes(c, env), k)
    ensures a in c.atoms && w == Effect(a, env) && On(w, k)
  {
    ProjMembers(Writes(c, env), k, w);
    var i :| 0 <= i < |c.atoms| && Writes(c, env)[i] == w;
    a := c.atoms[i];
  }

  /** At each key both orders leave the same cell: only one change writes it, or both write one blob token. */
  lemma SameCellBothOrders(a: Change, b: Change, env: Env, k: NodePath, c: Option<Bytes>)
    requires AtomsDisjoint(a.atoms, b.atoms)
    ensures RunCell(c, Proj(Writes(a, env), k) + Proj(Writes(b, env), k))
         == RunCell(c, Proj(Writes(b, env), k) + Proj(Writes(a, env), k))
  {
    var pa, pb := Proj(Writes(a, env), k), Proj(Writes(b, env), k);
    if pa == [] || pb == [] {
      assert pa + pb == pb + pa;
    } else {
      var w := pa[0];
      forall v | v in pa + pb ensures w.Put? && v == w {
        var x0 := WriteFrom(a, env, k, w);
        var y0 := WriteFrom(b, env, k, pb[0]);
        DisjointEffects(x0, y0, env);
        if v in pa {
          var x := WriteFrom(a, env, k, v);
          DisjointEffects(x, y0, env);
        } else {
          var y := WriteFrom(b, env, k, v);
          DisjointEffects(x0, y, env);
        }
      }
      assert w in pa + pb;
      forall v | v in pb + pa ensures v == w {
        assert v in pa + pb;
      }
      AllPuts(c, pa + pb, w);
      AllPuts(c, pb + pa, w);
    }
  }

  /** Changes that pass the check replay to the same state in both orders, or fail in both. */
  lemma CommutesSwap(a: Change, b: Change, s: State, env: Env)
    requires Commutes(a, b)
    ensures Run(s, Writes(a, env) + Writes(b, env)) == Run(s, Writes(b, env) + Writes(a, env))
  {
    var wa, wb := Writes(a, env), Writes(b, env);
    A.NoFailConcat(wa, wb);
    A.NoFailConcat(wb, wa);
    forall k ensures RunCell(Get(s, k), Proj(wa + wb, k)) == RunCell(Get(s, k), Proj(wb + wa, k)) {
      ProjConcat(wa, wb, k);
      ProjConcat(wb, wa, k);
      SameCellBothOrders(a, b, env, k, Get(s, k));
    }
    SameCells(s, wa + wb, wb + wa);
  }

  // ---- producing the commuted pair -----------------------------------------

  /** A delete and an insert of the same path, one on each side. */
  predicate GhostConflict(a: seq<Atom>, b: seq<Atom>) {
    exists x, y :: x in a && y in b && (SameTerminal(x, y) || SameTerminal(y, x))
  }

  predicate SameTerminal(del: Atom, ins: Atom) {
    del.Delete? && ins.Insert? && del.at == ins.at
  }

  /** The path after the first move whose source is a prefix of it. */
  function RewritePath(p: NodePath, moves: seq<Atom>): NodePath {
    if moves == [] then p
    else if moves[0].Move? && moves[0].from <= p then moves[0].to + p[|moves[0].from|..]
    else RewritePath(p, moves[1..])
  }

  function RewriteAtom(a: Atom, moves: seq<Atom>): Atom {
    match a
    case Insert(at, h) => Insert(RewritePath(at, moves), h)
    case Delete(at, h) => Delete(RewritePath(at, moves), h)
    case Move(from, to) => Move(RewritePath(from, moves), RewritePath(to, moves))
    case SemanticsPreserving(at, d) => SemanticsPreserving(RewritePath(at, moves), d)
    case _ => a
  }

  function RewriteAtoms(atoms: seq<Atom>, moves: seq<Atom>): (r: seq<Atom>)
    ensures |r| == |atoms|
  {
    seq(|atoms|, i requires 0 <= i < |atoms| => RewriteAtom(atoms[i], moves))
  }

  /** The four gates: dependency, disjoint paths, ghost conflict, then rewriting across moves. */
  function CommutePair(a: Change, b: Change, signer: Author, hash: (set<Id>, seq<Atom>, string, Author) -> Id)
    : Option<(Change, Change)>
  {
    if a.id in b.deps || b.id in a.deps then None
    else if !AtomsDisjoint(a.atoms, b.atoms) then None
    else if GhostConflict(a.atoms, b.atoms) then None
    else
      var bAtoms, aAtoms := RewriteAtoms(b.atoms, a.atoms), RewriteAtoms(a.atoms, b.atoms);
      var bDeps, aDeps := b.deps - {a.id}, a.deps - {b.id};
      Some((Change(hash(bDeps, bAtoms, b.intent, signer), bDeps, bAtoms, b.intent, signer),
            Change(hash(aDeps, aAtoms, a.intent, signer), aDeps, aAtoms, a.intent, signer)))
  }

  lemma {:induction false} NoMovesNoRewrite(p: NodePath, moves: seq<Atom>)
    requires forall m :: m in moves ==> !m.Move?
    ensures RewritePath(p, moves) == p
  {
    if moves != [] {
      NoMovesNoRewrite(p, moves[1..]);
    }
  }

  lemma NoMovesSameAtoms(atoms: seq<Atom>, moves: seq<Atom>)
    requires forall m :: m in moves ==> !m.Move?
    ensures RewriteAtoms(atoms, moves) == atoms
  {
    forall p {
      NoMovesNoRewrite(p, moves);
    }
  }

  /** The atom moves the path, or something the path lies in. */
  ghost predicate Covers(m: Atom, p: NodePath) {
    m.Move? && m.from <= p
  }

  /** The first of the moves that covers the path. */
  ghost predicate FirstCover(moves: seq<Atom>, p: NodePath, i: nat) {
    i < |moves| && Covers(moves[i], p) && forall j :: 0 <= j < i ==> !Covers(moves[j], p)
  }

  /**
   `q` is `p` with the source of the first move that covers it replaced by that move's target, or `p`
   when none does.
   */
  ghost predicate Moved(p: NodePath, q: NodePath, moves: seq<Atom>) {
    || (q == p && forall j :: 0 <= j < |moves| ==> !Covers(moves[j], p))
    || exists i: nat :: FirstCover(moves, p, i) && q == moves[i].to + p[|moves[i].from|..]
  }

  /** The atom after the moves: inserts, deletes, moves and notes have their paths moved, the others stay. */
  ghost predicate Carried(a: Atom, b: Atom, moves: seq<Atom>) {
    if a.Insert? then b.Insert? && b.contentHash == a.contentHash && Moved(a.at, b.at, moves)
    else if a.Delete? then b.Delete? && b.priorHash == a.priorHash && Moved(a.at, b.at, moves)
    else if a.Move? then b.Move? && Moved(a.from, b.from, moves) && Moved(a.to, b.to, moves)
    else if a.SemanticsPreserving? then
      b.SemanticsPreserving? && b.description == a.description && Moved(a.at, b.at, moves)
    else b == a
  }

  lemma {:induction false} RewriteMoves(p: NodePath, moves: seq<Atom>)
    ensures Moved(p, RewritePath(p, moves), moves)
  {
    if moves != [] {
      if Covers(moves[0], p) {
        assert FirstCover(moves, p, 0);
      } else {
        RewriteMoves(p, moves[1..]);
        assert RewritePath(p, moves) == RewritePath(p, moves[1..]);
        hide RewritePath;
        MovedBehind(p, RewritePath(p, moves), moves);
      }
    }
  }

  lemma MovedBehind(p: NodePath, q: NodePath, moves: seq<Atom>)
    requires moves != [] && !Covers(moves[0], p) && Moved(p, q, moves[1..])
    ensures Moved(p, q, moves)
  {
    var rest := moves[1..];
    assert forall i :: 0 < i < |moves| ==> moves[i] == rest[i - 1];
    if i: nat :| FirstCover(rest, p, i) && q == rest[i].to + p[|rest[i].from|..] {
      assert FirstCover(moves, p, i + 1);
    }
  }

  lemma RewriteCarries(atoms: seq<Atom>, moves: seq<Atom>)
    ensures forall i :: 0 <= i < |atoms| ==> Carried(atoms[i], RewriteAtoms(atoms, moves)[i], moves)
  {
    hide Moved, RewritePath;
    forall p ensures Moved(p, RewritePath(p, moves), moves) {
      RewriteMoves(p, moves);
    }
  }

  lemma GhostIsPath(a: seq<Atom>, b: seq<Atom>)
    ensures GhostConflict(a, b) ==> !AtomsDisjoint(a, b)
  {
    if x, y :| x in a && y in b && (SameTerminal(x, y) || SameTerminal(y, x)) {
      assert x.at in x.Paths() && y.at in y.Paths() && A.PathsOverlap(x.at, y.at);
      assert AtomsConflict(x, y);
    }
  }

  /**
   The pair exists exactly when the changes commute: the ghost gate never refuses what the path gate
   let through. Without moves the pair keeps the atoms, and it always keeps the dependencies.
   */
  lemma CommutePairIff(a: Change, b: Change, signer: Author, hash: (set<Id>, seq<Atom>, string, Author) -> Id)
    ensures CommutePair(a, b, signer, hash).Some? <==> Commutes(a, b)
    ensures CommutePair(a, b, signer, hash).Some? ==>
              var (b', a') := CommutePair(a, b, signer, hash).value;
              && b'.deps == b.deps && a'.deps == a.deps
              && b'.intent == b.intent && a'.intent == a.intent && b'.author == a'.author == signer
              && b'.id == hash(b.deps, b'.atoms, b.intent, signer) && a'.id == hash(a.deps, a'.atoms, a.intent, signer)
              && |b'.atoms| == |b.atoms|
              && (forall i :: 0 <= i < |b.atoms| ==> Carried(b.atoms[i], b'.atoms[i], a.atoms))
              && |a'.atoms| == |a.atoms|
              && (forall i :: 0 <= i < |a.atoms| ==> Carried(a.atoms[i], a'.atoms[i], b.atoms))
              && ((forall m :: m in a.atoms ==> !m.Move?) ==> b'.atoms == b.atoms)
              && ((forall m :: m in b.atoms ==> !m.Move?) ==> a'.atoms == a.atoms)
  {
    GhostIsPath(a.atoms, b.atoms);
    RewriteCarries(b.atoms, a.atoms);
    RewriteCarries(a.atoms, b.atoms);
    hide Carried;
    assert a.id !in b.deps ==> b.deps - {a.id} == b.deps;
    assert b.id !in a.deps ==> a.deps - {b.id} == a.deps;
    if forall m :: m in a.atoms ==> !m.Move? {
      NoMovesSameAtoms(b.atoms, a.atoms);
    }
    if forall m :: m in b.atoms ==> !m.Move? {
      NoMovesSameAtoms(a.atoms, b.atoms);
    }
  }
}
