/** Atoms, changes, their replay and the commutation check (`src/algebra`, `src/store/change.rs`). */
module Algebra {
  import opened Base
  import opened Cells

  datatype Atom =
    | Insert(at: NodePath, content: Bytes)
    | Delete(at: NodePath)
    | Move(from: NodePath, to: NodePath)
    | SemanticsPreserving(at: NodePath, description: string)
    | Directory(path: NodePath)
  {
    /** Every path the atom touches. */
    function Paths(): seq<NodePath> {
      match this
      case Insert(at, _) => [at]
      case Delete(at) => [at]
      case Move(from, to) => [from, to]
      case SemanticsPreserving(at, _) => [at]
      case Directory(path) => [path]
    }
  }

  datatype Author =
    | Human(name: string, email: string, key: Bytes)
    | AI(model: string, humanSponsor: Bytes)

  datatype Change = Change(id: Id, deps: set<Id>, atoms: seq<Atom>, intent: string, author: Author)

  type State = map<NodePath, Bytes>
  type Blame = map<NodePath, Id>

  /** The ignore rules: is this path, taken as a directory or not, ignored? */
  type Ignore = (string, bool) -> bool

  // ---- replay --------------------------------------------------------------

  /** A path no AI author may touch: the ignore file itself, or a file or directory it lists. */
  predicate Restricted(p: NodePath, ignore: Ignore) {
    if |p| >= 2 && p[0] == "file" then
      p[1] == ".agentignore" || ignore(p[1], false)
    else if |p| >= 2 && p[0] == "dir" then
      p[1] == ".agentignore" || ignore(p[1], true)
    else
      false
  }

  ghost predicate Blocked(c: Change, atom: Atom, ignore: Ignore) {
    c.author.AI? && exists p :: p in atom.Paths() && Restricted(p, ignore)
  }

  /** What an atom writes to the state; an error when it is blocked or has no replay. */
  ghost function WriteOf(c: Change, atom: Atom, ignore: Ignore): Write<Bytes> {
    if Blocked(c, atom, ignore) then Fail else
      match atom
      case Insert(at, content) => Put(at, content)
      case Delete(at) => Remove(at)
      case Directory(path) => Ensure(path, [])
      case Move(_, _) => Fail
      case SemanticsPreserving(_, _) => Fail
  }

  /** What an atom writes to the blame map. */
  ghost function MarkOf(c: Change, atom: Atom, ignore: Ignore): Write<Id> {
    if Blocked(c, atom, ignore) then Fail else
      match atom
      case Insert(at, _) => Put(at, c.id)
      case Delete(at) => Drop(at)
      case Directory(path) => Put(path, c.id)
      case Move(_, _) => Fail
      case SemanticsPreserving(_, _) => Fail
  }

  ghost function Writes(c: Change, ignore: Ignore): (ws: seq<Write<Bytes>>)
    ensures |ws| == |c.atoms|
  {
    seq(|c.atoms|, i requires 0 <= i < |c.atoms| => WriteOf(c, c.atoms[i], ignore))
  }

  ghost function Marks(c: Change, ignore: Ignore): (ws: seq<Write<Id>>)
    ensures |ws| == |c.atoms|
  {
    seq(|c.atoms|, i requires 0 <= i < |c.atoms| => MarkOf(c, c.atoms[i], ignore))
  }

  lemma RunSnoc<V>(m: map<NodePath, V>, ws: seq<Write<V>>, n: nat)
    requires n < |ws| && Run(m, ws[..n]).Some?
    ensures Run(m, ws[..n + 1]) == Apply(Run(m, ws[..n]).value, ws[n])
  {
    assert ws[..n + 1] == ws[..n] + [ws[n]];
    RunConcat(m, ws[..n], [ws[n]]);
    var m' := Run(m, ws[..n]).value;
    assert [ws[n]][1..] == [];
    match Apply(m', ws[n])
    case None =>
    case Some(m'') => assert Run(m'', []) == Some(m'');
  }

  lemma RunStuck<V>(m: map<NodePath, V>, ws: seq<Write<V>>, n: nat)
    requires n < |ws| && Run(m, ws[..n]).Some? && Apply(Run(m, ws[..n]).value, ws[n]).None?
    ensures Run(m, ws).None?
  {
    RunSnoc(m, ws, n);
    assert ws == ws[..n + 1] + ws[n + 1..];
    RunConcat(m, ws[..n + 1], ws[n + 1..]);
  }

  /** The state being materialised, with the blame map when the caller keeps one. */
  class Workspace {
    var state: State
    var blame: Option<Blame>

    constructor (withBlame: bool)
      ensures state == map[]
      ensures blame == if withBlame then Some(map[]) else None
    {
      state := map[];
      blame := if withBlame then Some(map[]) else None;
    }

    /** After a failing change the atoms before the failing one have taken effect. */
    ghost predicate After(s: State, b: Option<Blame>, c: Change, ignore: Ignore, n: nat)
      requires n <= |c.atoms|
      reads this
    {
      && Run(s, Writes(c, ignore)[..n]) == Some(state)
      && match b
         case None => blame == None
         case Some(m) => blame.Some? && Run(m, Marks(c, ignore)[..n]) == blame
    }

    method ApplyChange(c: Change, ignore: Ignore) returns (ok: bool)
      modifies this
      ensures ok ==> After(old(state), old(blame), c, ignore, |c.atoms|)
      ensures ok <==> Run(old(state), Writes(c, ignore)).Some?
      ensures ok ==> Some(state) == Run(old(state), Writes(c, ignore))
      ensures ok && old(blame).None? ==> blame.None?
      ensures ok && old(blame).Some? ==> blame.Some? && blame == Run(old(blame).value, Marks(c, ignore))
      ensures !ok ==> exists n :: 0 <= n < |c.atoms| && After(old(state), old(blame), c, ignore, n)
                               && Apply(state, Writes(c, ignore)[n]).None?
    {
      ghost var ws, ms := Writes(c, ignore), Marks(c, ignore);
      assert Run(state, ws[..0]) == Some(state);
      assert blame.Some? ==> Run(blame.value, ms[..0]) == blame;
      hide Run, WriteOf, MarkOf, Apply, Blocked;
      var isAi := c.author.AI?;
      for i := 0 to |c.atoms|
        invariant After(old(state), old(blame), c, ignore, i)
      {
        var atom := c.atoms[i];
        if isAi {
          var restricted := TouchesRestricted(atom, ignore);
          if restricted {
            BlockedStops(c, atom, ignore, state);
            RunStuck(old(state), ws, i);
            return false;
          }
        }
        NotBlocked(c, atom, ignore);
        RunSnoc(old(state), ws, i);
        if old(blame).Some? {
          RunSnoc(old(blame).value, ms, i);
        }
        ok := Execute(c, atom, ignore);
        if !ok {
          RunStuck(old(state), ws, i);
          return false;
        }
      }
      assert ws[..|c.atoms|] == ws && ms[..|c.atoms|] == ms;
      return true;
    }

    /** One atom that passed the gate; a failing one changes nothing. */
    method Execute(c: Change, atom: Atom, ghost ignore: Ignore) returns (ok: bool)
      requires !Blocked(c, atom, ignore)
      modifies this
      ensures ok ==> Apply(old(state), WriteOf(c, atom, ignore)) == Some(state)
      ensures ok ==> match old(blame)
                     case None => blame == None
                     case Some(b) => blame.Some? && Apply(b, MarkOf(c, atom, ignore)) == blame
      ensures !ok ==> Apply(old(state), WriteOf(c, atom, ignore)).None? && state == old(state) && blame == old(blame)
    {
      match atom {
        case Insert(at, content) =>
          state := state[at := content];
          if blame.Some? {
            blame := Some(blame.value[at := c.id]);
          }
        case Delete(at) =>
          if at !in state {
            return false;
          }
          state := state - {at};
          if blame.Some? {
            blame := Some(blame.value - {at});
          }
        case Directory(path) =>
          if path !in state {
            state := state[path := []];
          }
          if blame.Some? {
            blame := Some(blame.value[path := c.id]);
          }
        case Move(_, _) =>
          return false;
        case SemanticsPreserving(_, _) =>
          return false;
      }
      return true;
    }
  }

  lemma BlockedStops(c: Change, atom: Atom, ignore: Ignore, s: State)
    requires c.author.AI? && exists p :: p in atom.Paths() && Restricted(p, ignore)
    ensures Apply(s, WriteOf(c, atom, ignore)).None?
  {}

  lemma NotBlocked(c: Change, atom: Atom, ignore: Ignore)
    requires c.author.AI? ==> !exists p :: p in atom.Paths() && Restricted(p, ignore)
    ensures !Blocked(c, atom, ignore)
  {}

  /** The gate for AI authors: some path of the atom may not be touched. */
  method TouchesRestricted(atom: Atom, ignore: Ignore) returns (r: bool)
    ensures r <==> exists p :: p in atom.Paths() && Restricted(p, ignore)
  {
    var paths := atom.Paths();
    for j := 0 to |paths|
      invariant forall k :: 0 <= k < j ==> !Restricted(paths[k], ignore)
    {
      var p := paths[j];
      if |p| >= 2 && (p[0] == "file" || p[0] == "dir") {
        var isDir := p[0] != "file";
        var isSentinel := p[1] == ".agentignore";
        var isRestricted := ignore(p[1], isDir);
        if isSentinel || isRestricted {
          assert Restricted(p, ignore) && p in atom.Paths();
          return true;
        }
      }
    }
    return false;
  }

  // ---- commutation ---------------------------------------------------------

  /** One path is a prefix of, or equal to, the other. */
  predicate PathsOverlap(a: NodePath, b: NodePath) {
    var n := if |a| < |b| then |a| else |b|;
    a[..n] == b[..n]
  }

  predicate AtomsDisjoint(a: seq<Atom>, b: seq<Atom>) {
    forall x, y :: x in a && y in b ==>
      forall p, q :: p in x.Paths() && q in y.Paths() ==> !PathsOverlap(p, q)
  }

  predicate Commutes(a: Change, b: Change) {
    if a.id in b.deps || b.id in a.deps then false else AtomsDisjoint(a.atoms, b.atoms)
  }

  /** The atom names the path: where it inserts, deletes or notes something, either end of a move, a directory. */
  ghost predicate Names(a: Atom, p: NodePath) {
    || ((a.Insert? || a.Delete? || a.SemanticsPreserving?) && p == a.at)
    || (a.Move? && (p == a.from || p == a.to))
    || (a.Directory? && p == a.path)
  }

  /** The paths of an atom are those it names. */
  lemma PathsAreNamed(a: Atom, p: NodePath)
    ensures p in a.Paths() <==> Names(a, p)
  {
    assert p in a.Paths() <==> exists i :: 0 <= i < |a.Paths()| && a.Paths()[i] == p;
    match a
    case Insert(at, _) => assert a.Paths() == [at];
    case Delete(at) => assert a.Paths() == [at];
    case Move(from, to) => assert a.Paths() == [from, to];
    case SemanticsPreserving(at, _) => assert a.Paths() == [at];
    case Directory(path) => assert a.Paths() == [path];
  }

  /** Every path some atom of the change names. */
  ghost predicate TouchesPath(c: Change, p: NodePath) {
    exists x :: x in c.atoms && Names(x, p)
  }

  lemma PathsOverlapIff(a: NodePath, b: NodePath)
    ensures PathsOverlap(a, b) <==> PrefixRelated(a, b)
  {
    var n := if |a| < |b| then |a| else |b|;
    assert a[..n] == b[..n] <==> forall i :: 0 <= i < n ==> a[i] == b[i] by {
      if a[..n] == b[..n] {
        forall i | 0 <= i < n ensures a[i] == b[i] {
          assert a[..n][i] == b[..n][i];
        }
      }
    }
  }

  /**
   The check passes exactly when neither change names the other and no path of one is a prefix of a
   path of the other.
   */
  lemma CommutesIff(a: Change, b: Change)
    ensures Commutes(a, b)
       <==> && a.id !in b.deps && b.id !in a.deps
            && forall p, q :: TouchesPath(a, p) && TouchesPath(b, q) ==> !PrefixRelated(p, q)
  {
    hide PathsOverlap, Names;
    forall p, q ensures PathsOverlap(p, q) <==> PrefixRelated(p, q) {
      PathsOverlapIff(p, q);
    }
    forall x: Atom, p ensures p in x.Paths() <==> Names(x, p) {
      PathsAreNamed(x, p);
    }
    if forall p, q :: TouchesPath(a, p) && TouchesPath(b, q) ==> !PrefixRelated(p, q) {
      forall x, y, p, q | x in a.atoms && y in b.atoms && p in x.Paths() && q in y.Paths() ensures !PathsOverlap(p, q) {
        assert TouchesPath(a, p) && TouchesPath(b, q);
      }
    }
  }

  ghost predicate PrefixRelated(p: NodePath, q: NodePath) {
    p <= q || q <= p
  }

  // ---- the gate, and what an atom does -------------------------------------

  /**
   An AI author may not touch this path: it lies in the ignore file, or the ignore rules list its file
   or directory.
   */
  ghost predicate Guarded(p: NodePath, ignore: Ignore) {
    && |p| >= 2 && (p[0] == "file" || p[0] == "dir")
    && (p[1] == ".agentignore" || ignore(p[1], p[0] == "dir"))
  }

  /** An atom is refused exactly when its author is an AI and it names a guarded path. */
  lemma GateIff(c: Change, a: Atom, ignore: Ignore)
    ensures Blocked(c, a, ignore) <==> c.author.AI? && exists p :: Names(a, p) && Guarded(p, ignore)
  {
    forall p ensures p in a.Paths() <==> Names(a, p) {
      PathsAreNamed(a, p);
    }
    forall p ensures Restricted(p, ignore) <==> Guarded(p, ignore) {
      assert "file" != "dir";
    }
  }

  /** A change of an AI author that names a guarded path never replays; any other replays as a human's would. */
  lemma GateExact(c: Change, human: Change, ignore: Ignore, s: State)
    requires human.author.Human? && human == c.(author := human.author)
    ensures Run(s, Writes(c, ignore))
         == if c.author.AI? && exists p :: TouchesPath(c, p) && Guarded(p, ignore) then None
            else Run(s, Writes(human, ignore))
  {
    if p :| c.author.AI? && TouchesPath(c, p) && Guarded(p, ignore) {
      var x :| x in c.atoms && Names(x, p);
      GateIff(c, x, ignore);
      var i :| 0 <= i < |c.atoms| && c.atoms[i] == x;
      assert Writes(c, ignore)[i].Fail?;
      RunSucceeds(s, Writes(c, ignore));
    } else {
      forall i | 0 <= i < |c.atoms| ensures Writes(c, ignore)[i] == Writes(human, ignore)[i] {
        GateIff(c, c.atoms[i], ignore);
        assert forall p :: Names(c.atoms[i], p) ==> TouchesPath(c, p);
      }
      assert Writes(c, ignore) == Writes(human, ignore);
    }
  }

  /** No rules let an AI author touch the ignore file: such a change never replays. */
  lemma IgnoreFileIsSafe(c: Change, p: NodePath, ignore: Ignore, s: State)
    requires c.author.AI? && TouchesPath(c, p)
    requires |p| >= 2 && (p[0] == "file" || p[0] == "dir") && p[1] == ".agentignore"
    ensures Run(s, Writes(c, ignore)).None?
  {
    GateExact(c, c.(author := Human("", "", [])), ignore, s);
  }

  /** What an atom that passes the gate does to the cell of every key, and when it fails. */
  lemma AtomMeans(c: Change, a: Atom, ignore: Ignore, s: State, k: NodePath)
    requires !Blocked(c, a, ignore)
    ensures Apply(s, WriteOf(c, a, ignore)).Some? <==> a.Insert? || a.Directory? || (a.Delete? && a.at in s)
    ensures Apply(s, WriteOf(c, a, ignore)).Some? ==>
              Get(Apply(s, WriteOf(c, a, ignore)).value, k)
              == if a.Insert? && k == a.at then Some(a.content)
                 else if a.Delete? && k == a.at then None
                 else if a.Directory? && k == a.path && k !in s then Some([])
                 else Get(s, k)
  {}

  /** What it does to the blame of every key. */
  lemma AtomMarks(c: Change, a: Atom, ignore: Ignore, b: Blame, k: NodePath)
    requires !Blocked(c, a, ignore) && (a.Insert? || a.Delete? || a.Directory?)
    ensures Apply(b, MarkOf(c, a, ignore)).Some?
    ensures Get(Apply(b, MarkOf(c, a, ignore)).value, k)
         == if a.Insert? && k == a.at then Some(c.id)
            else if a.Delete? && k == a.at then None
            else if a.Directory? && k == a.path then Some(c.id)
            else Get(b, k)
  {}

  /** The change has an atom that reads or writes this key. */
  ghost predicate Touches(c: Change, k: NodePath, ignore: Ignore) {
    Proj(Writes(c, ignore), k) != []
  }

  /** Every write of a list comes from the atom at the same place and is keyed by one of its paths. */
  ghost predicate Keyed<V>(c: Change, ws: seq<Write<V>>) {
    |ws| == |c.atoms| && forall i :: 0 <= i < |ws| ==> !ws[i].Fail? ==> ws[i].key in c.atoms[i].Paths()
  }

  lemma KeyedPath<V>(c: Change, ws: seq<Write<V>>, k: NodePath)
    requires Keyed(c, ws) && Proj(ws, k) != []
    ensures exists a :: a in c.atoms && k in a.Paths()
  {
    var w := Proj(ws, k)[0];
    ProjMembers(ws, k, w);
    var i :| 0 <= i < |c.atoms| && ws[i] == w;
    assert c.atoms[i] in c.atoms && k in c.atoms[i].Paths();
  }

  /** Changes with disjoint paths write no common key. */
  lemma DisjointKeys<V>(a: Change, wa: seq<Write<V>>, b: Change, wb: seq<Write<V>>, k: NodePath)
    requires AtomsDisjoint(a.atoms, b.atoms) && Keyed(a, wa) && Keyed(b, wb)
    ensures Proj(wa, k) == [] || Proj(wb, k) == []
  {
    if Proj(wa, k) != [] && Proj(wb, k) != [] {
      KeyedPath(a, wa, k);
      KeyedPath(b, wb, k);
      assert PathsOverlap(k, k);
      assert false;
    }
  }

  lemma NoFailConcat<V>(a: seq<Write<V>>, b: seq<Write<V>>)
    ensures NoFail(a + b) <==> NoFail(a) && NoFail(b)
  {
    assert forall i :: 0 <= i < |a| ==> (a + b)[i] == a[i];
    assert forall i :: 0 <= i < |b| ==> (a + b)[|a| + i] == b[i];
  }

  /** Two changes that pass the check replay to the same result in either order. */
  lemma CommutesSwap(a: Change, b: Change, s: State, ignore: Ignore)
    requires Commutes(a, b)
    ensures Run(s, Writes(a, ignore) + Writes(b, ignore)) == Run(s, Writes(b, ignore) + Writes(a, ignore))
  {
    var wa, wb := Writes(a, ignore), Writes(b, ignore);
    NoFailConcat(wa, wb);
    NoFailConcat(wb, wa);
    forall k ensures Proj(wa + wb, k) == Proj(wb + wa, k) {
      ProjConcat(wa, wb, k);
      ProjConcat(wb, wa, k);
      DisjointKeys(a, wa, b, wb, k);
    }
    SameCells(s, wa + wb, wb + wa);
  }
}
