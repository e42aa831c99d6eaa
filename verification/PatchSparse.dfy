/** Sparse replay (`crates/arc-algebra/src/sparse.rs`, `apply_change_scoped`) as a projection of full replay. */
module PatchSparse {
  import opened Base
  import opened Cells
  import opened PatchAlgebra

  /** The part of a state inside the boundary. */
  function Restrict(s: State, m: Matcher): State {
    map k | k in s && m.MatchesNode(k) :: s[k]
  }

  /** A blob of a file inside a boundary that is not full: the matcher sees no path and skips it. */
  predicate HiddenBlob(a: Atom, m: Matcher) {
    a.Blob? && !m.full && m.MatchesNode(["file", a.file])
  }

  ghost function ScopedAtom(author: Author, a: Atom, env: Env, m: Matcher): seq<Atom> {
    if Blocked(author, a, env) || m.MatchesAtom(a) then [a] else []
  }

  lemma StepProjects(author: Author, a: Atom, env: Env, m: Matcher, s: State)
    requires !HiddenBlob(a, m) && Apply(s, WriteOf(author, a, env)).Some?
    ensures Run(Restrict(s, m), WritesOf(author, ScopedAtom(author, a, env, m), env))
         == Some(Restrict(Apply(s, WriteOf(author, a, env)).value, m))
  {
    var w, t := WriteOf(author, a, env), Apply(s, WriteOf(author, a, env)).value;
    var k := w.key;
    assert m.MatchesAtom(a) <==> m.MatchesNode(k) by {
      EffectKey(a, env);
      if !a.Blob? {
        assert a.Paths() == [k];
      } else {
        assert k == ["file", a.file];
      }
    }
    if m.MatchesNode(k) {
      assert WritesOf(author, [a], env) == [w] && [w][1..] == [];
      assert Apply(Restrict(s, m), w).Some? && Apply(Restrict(s, m), w).value == Restrict(t, m);
      assert Run(Restrict(t, m), []) == Some(Restrict(t, m));
    } else {
      assert Restrict(t, m) == Restrict(s, m);
      assert WritesOf(author, [], env) == [];
    }
  }

  /** For one atom the projection law holds from every state exactly when it is not a hidden blob. */
  lemma AtomProjectsIff(author: Author, a: Atom, env: Env, m: Matcher)
    ensures !HiddenBlob(a, m)
       <==> forall s: State :: Apply(s, WriteOf(author, a, env)).Some? ==>
              Run(Restrict(s, m), WritesOf(author, ScopedAtom(author, a, env, m), env))
              == Some(Restrict(Apply(s, WriteOf(author, a, env)).value, m))
  {
    if !HiddenBlob(a, m) {
      forall s: State | Apply(s, WriteOf(author, a, env)).Some?
        ensures Run(Restrict(s, m), WritesOf(author, ScopedAtom(author, a, env, m), env))
             == Some(Restrict(Apply(s, WriteOf(author, a, env)).value, m))
      {
        StepProjects(author, a, env, m, s);
      }
    } else {
      HiddenBlobBreaks(author, a, env, m);
      assert Apply(map[], WriteOf(author, a, env)).Some?;
    }
  }

  /** A tracked file inside the boundary is missing from the sparse checkout of an empty state. */
  lemma HiddenBlobBreaks(author: Author, a: Atom, env: Env, m: Matcher)
    requires HiddenBlob(a, m)
    ensures Apply(map[], WriteOf(author, a, env)).Some?
    ensures Run(Restrict(map[], m), WritesOf(author, ScopedAtom(author, a, env, m), env))
         != Some(Restrict(Apply(map[], WriteOf(author, a, env)).value, m))
  {
    assert WriteOf(author, a, env) == Put(["file", a.file], env.blobRef(a.hash));
    assert Restrict(map[], m) == map[];
    assert ScopedAtom(author, a, env, m) == [];
    assert ["file", a.file] in Restrict(Apply(map[], WriteOf(author, a, env)).value, m);
  }

  // ---- whole replays -------------------------------------------------------

  /** Replaying changes in order, fully and inside a boundary. */
  ghost function ReplayFull(s: State, cs: seq<Change>, env: Env): Option<State>
    decreases |cs|
  {
    if cs == [] then Some(s) else
      match Run(s, Writes(cs[0], env))
      case None => None
      case Some(t) => ReplayFull(t, cs[1..], env)
  }

  ghost function ReplayScoped(s: State, cs: seq<Change>, env: Env, m: Matcher): Option<State>
    decreases |cs|
  {
    if cs == [] then Some(s) else
      match Run(s, ScopedWrites(cs[0], env, m))
      case None => None
      case Some(t) => ReplayScoped(t, cs[1..], env, m)
  }

  /** The first `n` atoms without those a boundary hides. */
  ghost function Visible(c: Change, m: Matcher, n: nat): seq<Atom>
    requires n <= |c.atoms|
  {
    if n == 0 then [] else Visible(c, m, n - 1) + if HiddenBlob(c.atoms[n - 1], m) then [] else [c.atoms[n - 1]]
  }

  ghost function AllWrites(cs: seq<Change>, env: Env): seq<Write<Bytes>> {
    if cs == [] then [] else Writes(cs[0], env) + AllWrites(cs[1..], env)
  }

  ghost function AllScoped(cs: seq<Change>, env: Env, m: Matcher): seq<Write<Bytes>> {
    if cs == [] then [] else ScopedWrites(cs[0], env, m) + AllScoped(cs[1..], env, m)
  }

  ghost function AllVisible(cs: seq<Change>, env: Env, m: Matcher): seq<Write<Bytes>> {
    if cs == [] then [] else
      WritesOf(cs[0].author, Visible(cs[0], m, |cs[0].atoms|), env) + AllVisible(cs[1..], env, m)
  }

  /** Some change tracks the file at this key by a blob that the boundary hides. */
  ghost predicate Tracked(cs: seq<Change>, m: Matcher, k: NodePath) {
    exists c, a :: c in cs && a in c.atoms && HiddenBlob(a, m) && k == ["file", a.file]
  }

  /** The key's own atoms, hidden blobs left out, run from the key's cell. */
  ghost function FileRun(s: State, cs: seq<Change>, env: Env, m: Matcher, k: NodePath): Option<Option<Bytes>> {
    RunCell(Get(s, k), Proj(AllVisible(cs, env, m), k))
  }

  lemma {:induction false} ReplayFullIs(s: State, cs: seq<Change>, env: Env)
    ensures ReplayFull(s, cs, env) == Run(s, AllWrites(cs, env))
    decreases |cs|
  {
    if cs != [] {
      RunConcat(s, Writes(cs[0], env), AllWrites(cs[1..], env));
      match Run(s, Writes(cs[0], env))
      case None =>
      case Some(t) => ReplayFullIs(t, cs[1..], env);
    }
  }

  lemma {:induction false} ReplayScopedIs(s: State, cs: seq<Change>, env: Env, m: Matcher)
    ensures ReplayScoped(s, cs, env, m) == Run(s, AllScoped(cs, env, m))
    decreases |cs|
  {
    if cs != [] {
      RunConcat(s, ScopedWrites(cs[0], env, m), AllScoped(cs[1..], env, m));
      match Run(s, ScopedWrites(cs[0], env, m))
      case None =>
      case Some(t) => ReplayScopedIs(t, cs[1..], env, m);
    }
  }

  /** An atom that does not fail is in scope exactly when it is no hidden blob and its key is inside. */
  lemma ScopeOfAtom(author: Author, a: Atom, env: Env, m: Matcher)
    requires !WriteOf(author, a, env).Fail?
    ensures !Blocked(author, a, env)
    ensures m.MatchesAtom(a) <==> !HiddenBlob(a, m) && m.MatchesNode(WriteOf(author, a, env).key)
    ensures HiddenBlob(a, m) ==> WriteOf(author, a, env).key == ["file", a.file]
  {
    EffectKey(a, env);
    if !a.Blob? {
      assert a.Paths() == [Effect(a, env).key];
    }
  }

  lemma ProjSnoc(author: Author, atoms: seq<Atom>, a: Atom, env: Env, k: NodePath)
    ensures Proj(WritesOf(author, atoms + [a], env), k)
         == Proj(WritesOf(author, atoms, env), k)
            + if On(WriteOf(author, a, env), k) then [WriteOf(author, a, env)] else []
  {
    WritesSnoc(author, atoms, a, env);
    var w := WriteOf(author, a, env);
    ProjConcat(WritesOf(author, atoms, env), [w], k);
    assert [w][1..] == [];
  }

  /** What an atom the boundary sees writes to a key. */
  ghost function SeenAt(author: Author, a: Atom, env: Env, m: Matcher, k: NodePath): seq<Write<Bytes>> {
    if !HiddenBlob(a, m) && On(WriteOf(author, a, env), k) then [WriteOf(author, a, env)] else []
  }

  /** At each key the scoped writes are the visible ones if the key is inside, and none otherwise. */
  lemma {:induction false} ScopedAt(c: Change, env: Env, m: Matcher, n: nat, k: NodePath)
    requires n <= |c.atoms| && forall i :: 0 <= i < n ==> !WriteOf(c.author, c.atoms[i], env).Fail?
    ensures Proj(WritesOf(c.author, InScope(c, env, m, n), env), k)
         == if m.MatchesNode(k) then Proj(WritesOf(c.author, Visible(c, m, n), env), k) else []
  {
    hide Proj, WritesOf, InScope, Visible, SeenAt, WriteOf, Matcher.MatchesNode;
    if n > 0 {
      ScopedAt(c, env, m, n - 1, k);
      ScopedStep(c, env, m, n, k);
      VisibleStep(c, env, m, n, k);
    } else {
      NothingScoped(c, env, m, k);
    }
  }

  lemma NothingScoped(c: Change, env: Env, m: Matcher, k: NodePath)
    ensures Proj(WritesOf(c.author, InScope(c, env, m, 0), env), k) == []
    ensures Proj(WritesOf(c.author, Visible(c, m, 0), env), k) == []
  {
    assert WritesOf(c.author, [], env) == [];
  }

  lemma ScopedStep(c: Change, env: Env, m: Matcher, n: nat, k: NodePath)
    requires 0 < n <= |c.atoms| && !WriteOf(c.author, c.atoms[n - 1], env).Fail?
    ensures Proj(WritesOf(c.author, InScope(c, env, m, n), env), k)
         == Proj(WritesOf(c.author, InScope(c, env, m, n - 1), env), k)
            + if m.MatchesNode(k) then SeenAt(c.author, c.atoms[n - 1], env, m, k) else []
  {
    var a, before := c.atoms[n - 1], InScope(c, env, m, n - 1);
    ScopeOfAtom(c.author, a, env, m);
    ProjSnoc(c.author, before, a, env, k);
    hide WriteOf, WritesOf, Proj;
    if !m.MatchesAtom(a) {
      assert InScope(c, env, m, n) == before;
    }
  }

  lemma VisibleStep(c: Change, env: Env, m: Matcher, n: nat, k: NodePath)
    requires 0 < n <= |c.atoms|
    ensures Proj(WritesOf(c.author, Visible(c, m, n), env), k)
         == Proj(WritesOf(c.author, Visible(c, m, n - 1), env), k) + SeenAt(c.author, c.atoms[n - 1], env, m, k)
  {
    var a, before := c.atoms[n - 1], Visible(c, m, n - 1);
    ProjSnoc(c.author, before, a, env, k);
    hide WriteOf, WritesOf, Proj;
    if HiddenBlob(a, m) {
      assert Visible(c, m, n) == before;
    }
  }

  lemma {:induction false} ScopedMembers(c: Change, env: Env, m: Matcher, n: nat)
    requires n <= |c.atoms|
    ensures forall a :: a in InScope(c, env, m, n) ==> a in c.atoms
  {
    if n > 0 {
      ScopedMembers(c, env, m, n - 1);
    }
  }

  lemma ScopedNoFail(c: Change, env: Env, m: Matcher)
    requires NoFail(Writes(c, env))
    ensures NoFail(ScopedWrites(c, env, m))
  {
    ScopedMembers(c, env, m, |c.atoms|);
    var atoms := InScope(c, env, m, |c.atoms|);
    forall i | 0 <= i < |atoms| ensures !ScopedWrites(c, env, m)[i].Fail? {
      assert atoms[i] in c.atoms;
      var j :| 0 <= j < |c.atoms| && c.atoms[j] == atoms[i];
      assert !Writes(c, env)[j].Fail?;
    }
  }

  /** Away from the tracked files the visible writes are all writes. */
  lemma {:induction false} VisibleAt(c: Change, env: Env, m: Matcher, n: nat, k: NodePath)
    requires n <= |c.atoms| && forall i :: 0 <= i < n ==> !WriteOf(c.author, c.atoms[i], env).Fail?
    requires forall a :: a in c.atoms && HiddenBlob(a, m) ==> k != ["file", a.file]
    ensures Proj(WritesOf(c.author, Visible(c, m, n), env), k) == Proj(WritesOf(c.author, c.atoms[..n], env), k)
  {
    hide Proj, WritesOf, Visible, SeenAt, WriteOf, HiddenBlob, On;
    if n > 0 {
      var a := c.atoms[n - 1];
      VisibleAt(c, env, m, n - 1, k);
      ScopeOfAtom(c.author, a, env, m);
      SeenUnlessHidden(c.author, a, env, m, k);
      assert c.atoms[..n] == c.atoms[..n - 1] + [a];
      ProjSnoc(c.author, c.atoms[..n - 1], a, env, k);
      VisibleStep(c, env, m, n, k);
    } else {
      assert c.atoms[..0] == [];
      NothingVisible(c, m);
    }
  }

  lemma NothingVisible(c: Change, m: Matcher)
    ensures Visible(c, m, 0) == []
  {}

  lemma SeenUnlessHidden(author: Author, a: Atom, env: Env, m: Matcher, k: NodePath)
    requires HiddenBlob(a, m) ==> k != ["file", a.file] && (!WriteOf(author, a, env).Fail? ==>
               WriteOf(author, a, env).key == ["file", a.file])
    ensures SeenAt(author, a, env, m, k) == if On(WriteOf(author, a, env), k) then [WriteOf(author, a, env)] else []
  {}

  lemma NoFailSplit(cs: seq<Change>, env: Env)
    requires cs != [] && NoFail(AllWrites(cs, env))
    ensures NoFail(Writes(cs[0], env)) && NoFail(AllWrites(cs[1..], env))
    ensures forall i :: 0 <= i < |cs[0].atoms| ==> !WriteOf(cs[0].author, cs[0].atoms[i], env).Fail?
  {
    A.NoFailConcat(Writes(cs[0], env), AllWrites(cs[1..], env));
    forall i | 0 <= i < |cs[0].atoms| ensures !WriteOf(cs[0].author, cs[0].atoms[i], env).Fail? {
      assert !Writes(cs[0], env)[i].Fail?;
    }
  }

  lemma {:induction false} AllScopedAt(cs: seq<Change>, env: Env, m: Matcher, k: NodePath)
    requires NoFail(AllWrites(cs, env))
    ensures Proj(AllScoped(cs, env, m), k) == if m.MatchesNode(k) then Proj(AllVisible(cs, env, m), k) else []
    ensures NoFail(AllScoped(cs, env, m))
  {
    if cs != [] {
      var c := cs[0];
      NoFailSplit(cs, env);
      AllScopedAt(cs[1..], env, m, k);
      ScopedAt(c, env, m, |c.atoms|, k);
      ScopedNoFail(c, env, m);
      var visible := WritesOf(c.author, Visible(c, m, |c.atoms|), env);
      A.NoFailConcat(ScopedWrites(c, env, m), AllScoped(cs[1..], env, m));
      ProjConcat(ScopedWrites(c, env, m), AllScoped(cs[1..], env, m), k);
      ProjConcat(visible, AllVisible(cs[1..], env, m), k);
    }
  }

  lemma {:induction false} AllVisibleAt(cs: seq<Change>, env: Env, m: Matcher, k: NodePath)
    requires NoFail(AllWrites(cs, env)) && !Tracked(cs, m, k)
    ensures Proj(AllVisible(cs, env, m), k) == Proj(AllWrites(cs, env), k)
  {
    if cs != [] {
      var c := cs[0];
      NoFailSplit(cs, env);
      NotTracked(cs, m, k);
      AllVisibleAt(cs[1..], env, m, k);
      VisibleAt(c, env, m, |c.atoms|, k);
      assert c.atoms[..|c.atoms|] == c.atoms;
      var visible := WritesOf(c.author, Visible(c, m, |c.atoms|), env);
      ProjConcat(visible, AllVisible(cs[1..], env, m), k);
      ProjConcat(Writes(c, env), AllWrites(cs[1..], env), k);
    }
  }

  lemma NotTracked(cs: seq<Change>, m: Matcher, k: NodePath)
    requires cs != [] && !Tracked(cs, m, k)
    ensures !Tracked(cs[1..], m, k)
    ensures forall a :: a in cs[0].atoms && HiddenBlob(a, m) ==> k != ["file", a.file]
  {
    assert cs[0] in cs && forall c :: c in cs[1..] ==> c in cs;
  }

  lemma TrackedInside(cs: seq<Change>, m: Matcher, k: NodePath)
    requires Tracked(cs, m, k)
    ensures m.MatchesNode(k)
  {}

  /**
   What one key of the sparse replay does: nothing outside, the full replay's run inside, the visible
   atoms' at a tracked file.
   */
  lemma SparseCell(s: State, cs: seq<Change>, env: Env, m: Matcher, k: NodePath)
    requires Run(s, AllWrites(cs, env)).Some?
    ensures RunCell(Get(Restrict(s, m), k), Proj(AllScoped(cs, env, m), k))
         == if !m.MatchesNode(k) then Some(None)
            else if Tracked(cs, m, k) then FileRun(s, cs, env, m, k)
            else Some(Get(Run(s, AllWrites(cs, env)).value, k))
    ensures NoFail(AllScoped(cs, env, m))
  {
    RunSucceeds(s, AllWrites(cs, env));
    RunAt(s, AllWrites(cs, env), k);
    AllScopedAt(cs, env, m, k);
    assert m.MatchesNode(k) ==> Get(Restrict(s, m), k) == Get(s, k);
    if !Tracked(cs, m, k) {
      AllVisibleAt(cs, env, m, k);
    }
  }

  /**
   When the sparse replay succeeds, given that the full one does: exactly when at each tracked file
   inside the boundary that file's own atoms still succeed without the skipped blobs. Every key inside
   then holds the full state's value, except the tracked files, which hold what their own atoms leave.
   */
  lemma SparseSucceedsIff(s: State, cs: seq<Change>, env: Env, m: Matcher)
    requires ReplayFull(s, cs, env).Some?
    ensures ReplayScoped(Restrict(s, m), cs, env, m).Some?
       <==> forall k :: Tracked(cs, m, k) ==> FileRun(s, cs, env, m, k).Some?
    ensures ReplayScoped(Restrict(s, m), cs, env, m).Some? ==>
              forall k :: Get(ReplayScoped(Restrict(s, m), cs, env, m).value, k)
                       == if !m.MatchesNode(k) then None
                          else if Tracked(cs, m, k) then FileRun(s, cs, env, m, k).value
                          else Get(ReplayFull(s, cs, env).value, k)
  {
    ReplayFullIs(s, cs, env);
    ReplayScopedIs(Restrict(s, m), cs, env, m);
    var ws := AllScoped(cs, env, m);
    hide FileRun, Tracked, AllScoped, AllWrites, Run, RunCell, Proj, Restrict;
    forall k
      ensures RunCell(Get(Restrict(s, m), k), Proj(ws, k))
           == if !m.MatchesNode(k) then Some(None)
              else if Tracked(cs, m, k) then FileRun(s, cs, env, m, k)
              else Some(Get(Run(s, AllWrites(cs, env)).value, k))
    {
      SparseCell(s, cs, env, m, k);
    }
    SparseCell(s, cs, env, m, []);
    RunSucceeds(Restrict(s, m), ws);
    forall k | Tracked(cs, m, k) ensures m.MatchesNode(k) {
      TrackedInside(cs, m, k);
    }
    if Run(Restrict(s, m), ws).Some? {
      forall k ensures RunCell(Get(Restrict(s, m), k), Proj(ws, k)) == Some(Get(Run(Restrict(s, m), ws).value, k)) {
        RunAt(Restrict(s, m), ws, k);
      }
    }
  }

  /**
   When the sparse replay is a projection of the full one: exactly when at each tracked file inside the
   boundary that file's own atoms, without the skipped blobs, leave what the full replay leaves.
   */
  lemma SparseProjectsIff(s: State, cs: seq<Change>, env: Env, m: Matcher)
    requires ReplayFull(s, cs, env).Some?
    ensures ReplayScoped(Restrict(s, m), cs, env, m) == Some(Restrict(ReplayFull(s, cs, env).value, m))
       <==> forall k :: Tracked(cs, m, k) ==> FileRun(s, cs, env, m, k) == Some(Get(ReplayFull(s, cs, env).value, k))
  {
    SparseSucceedsIff(s, cs, env, m);
    var full, r := ReplayFull(s, cs, env).value, ReplayScoped(Restrict(s, m), cs, env, m);
    hide FileRun, Tracked, ReplayFull, ReplayScoped;
    RestrictAt(full, m);
    forall k | Tracked(cs, m, k) ensures m.MatchesNode(k) {
      TrackedInside(cs, m, k);
    }
    if r.Some? {
      if forall k :: Tracked(cs, m, k) ==> FileRun(s, cs, env, m, k) == Some(Get(full, k)) {
        SameMap(r.value, Restrict(full, m));
      }
    }
  }

  lemma RestrictAt(s: State, m: Matcher)
    ensures forall k :: Get(Restrict(s, m), k) == if m.MatchesNode(k) then Get(s, k) else None
  {}

  /** Without a tracked file inside the boundary the sparse replay is the part of the full state inside it. */
  lemma SparseProjects(s: State, cs: seq<Change>, env: Env, m: Matcher)
    requires ReplayFull(s, cs, env).Some? && forall k :: !Tracked(cs, m, k)
    ensures ReplayScoped(Restrict(s, m), cs, env, m) == Some(Restrict(ReplayFull(s, cs, env).value, m))
  {
    SparseProjectsIff(s, cs, env, m);
  }

  // ---- deleting a tracked file ---------------------------------------------

  lemma {:induction false} NoRemoveRuns<V>(c: Option<V>, ws: seq<Write<V>>)
    requires NoFail(ws) && forall i :: 0 <= i < |ws| ==> !ws[i].Remove?
    ensures RunCell(c, ws).Some?
    decreases |ws|
  {
    if ws != [] {
      var d := ApplyCell(c, ws[0]).value;
      assert forall i :: 0 <= i < |ws[1..]| ==> ws[1..][i] == ws[i + 1];
      NoRemoveRuns(d, ws[1..]);
    }
  }

  lemma {:induction false} VisibleWritesFrom(cs: seq<Change>, env: Env, m: Matcher, w: Write<Bytes>)
    requires w in AllVisible(cs, env, m)
    ensures exists c, a :: c in cs && a in c.atoms && w == WriteOf(c.author, a, env)
  {
    var c := cs[0];
    var visible := WritesOf(c.author, Visible(c, m, |c.atoms|), env);
    assert c in cs && forall d :: d in cs[1..] ==> d in cs;
    if w in visible {
      var i :| 0 <= i < |visible| && visible[i] == w;
      VisibleMembers(c, m, |c.atoms|);
      assert Visible(c, m, |c.atoms|)[i] in c.atoms;
    } else {
      VisibleWritesFrom(cs[1..], env, m, w);
    }
  }

  lemma {:induction false} VisibleMembers(c: Change, m: Matcher, n: nat)
    requires n <= |c.atoms|
    ensures forall a :: a in Visible(c, m, n) ==> a in c.atoms
  {
    if n > 0 {
      VisibleMembers(c, m, n - 1);
    }
  }

  lemma {:induction false} AllWritesHas(cs: seq<Change>, env: Env, c: Change, a: Atom)
    requires c in cs && a in c.atoms
    ensures WriteOf(c.author, a, env) in AllWrites(cs, env)
  {
    if c == cs[0] {
      var i :| 0 <= i < |c.atoms| && c.atoms[i] == a;
      assert Writes(c, env)[i] == WriteOf(c.author, a, env);
    } else {
      AllWritesHas(cs[1..], env, c, a);
    }
  }

  lemma RemoveIsDelete(c: Change, a: Atom, env: Env)
    requires WriteOf(c.author, a, env).Remove?
    ensures a.Delete? && a.at == WriteOf(c.author, a, env).key
  {}

  /** Only deletes of tracked files can make a sparse replay fail where the full one succeeds. */
  lemma UndeletedSucceeds(s: State, cs: seq<Change>, env: Env, m: Matcher)
    requires ReplayFull(s, cs, env).Some?
    requires forall c, a :: c in cs && a in c.atoms && a.Delete? ==> !Tracked(cs, m, a.at)
    ensures ReplayScoped(Restrict(s, m), cs, env, m).Some?
  {
    ReplayFullIs(s, cs, env);
    RunSucceeds(s, AllWrites(cs, env));
    forall k | Tracked(cs, m, k) ensures FileRun(s, cs, env, m, k).Some? {
      var ws := Proj(AllVisible(cs, env, m), k);
      forall i | 0 <= i < |ws| ensures !ws[i].Fail? && !ws[i].Remove? {
        ProjMembers(AllVisible(cs, env, m), k, ws[i]);
        VisibleWritesFrom(cs, env, m, ws[i]);
        var c, a :| c in cs && a in c.atoms && ws[i] == WriteOf(c.author, a, env);
        if ws[i].Remove? {
          RemoveIsDelete(c, a, env);
          assert false;
        }
      }
      NoRemoveRuns(Get(s, k), ws);
    }
    SparseSucceedsIff(s, cs, env, m);
  }

  /** A tracked file is deleted: the full replay of an empty state succeeds, the sparse one fails. */
  lemma DeletedBlobFails(c: Change, env: Env, m: Matcher)
    requires !c.author.AI? && c.atoms == [Blob("a", 0, 0), Delete(["file", "a"], 0)]
    requires !m.full && m.MatchesNode(["file", "a"])
    ensures ReplayFull(map[], [c], env) == Some(map[]) && ReplayScoped(Restrict(map[], m), [c], env, m) == None
  {
    var none: State := map[];
    var k := ["file", "a"];
    var put, del := Put(k, env.blobRef(0)), Remove(k);
    assert Writes(c, env) == [put, del];
    assert [put, del][1..] == [del] && [del][1..] == [];
    assert Apply(none, put) == Some(none[k := env.blobRef(0)]);
    assert none[k := env.blobRef(0)] - {k} == none;
    assert Run(none, []) == Some(none) && Run(none[k := env.blobRef(0)], [del]) == Some(none);
    assert Run(none, [put, del]) == Some(none);
    assert [c][1..] == [];
    assert !m.MatchesAtom(c.atoms[0]);
    assert c.atoms[1].Paths() == [k] && m.MatchesAtom(c.atoms[1]);
    assert InScope(c, env, m, 1) == [] && InScope(c, env, m, 2) == [c.atoms[1]];
    assert ScopedWrites(c, env, m) == [del];
    assert Restrict(none, m) == none;
  }
}
