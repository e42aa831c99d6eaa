/**
 What a snap records: the delta between the materialised state and the working directory, of which the
 user may stage a part (`compute_working_directory_delta` and `snap` in `src/store/repo.rs`).
 */
module WorkingDirectory {
  import opened Base
  import opened Cells
  import opened Algebra
  import opened History
  import opened Runs
  import opened Diff

  /** The items of a source file as the state has them and as the file has them. */
  datatype FileDiff = FileDiff(before: Items, after: Items)

  /** The working directory: the files whose text differs, what is on disk, and the empty directories. */
  datatype Tree = Tree(changed: map<string, FileDiff>, onDisk: string -> bool, emptyDirs: set<string>)

  /** The old items of the changed files are those of the state. */
  ghost predicate Reads(s: State, t: Tree) {
    forall f :: f in t.changed ==> t.onDisk(f) && SliceIs(s, f, t.changed[f].before)
  }

  function DirKey(d: string): NodePath {
    ["dir", d]
  }

  // ---- the delta -----------------------------------------------------------

  predicate IsFile(key: NodePath) {
    |key| >= 2 && key[0] == "file"
  }

  predicate IsDir(key: NodePath) {
    |key| == 2 && key[0] == "dir"
  }

  /** What the delta does at one path. */
  function Wanted(s: State, t: Tree, key: NodePath): seq<Atom> {
    if IsFile(key) then
      if key[1] in t.changed then
        PrefixAll(EditsFor(t.changed[key[1]].before, t.changed[key[1]].after, key[2..]), key[1])
      else if |key| > 2 && key in s && !t.onDisk(key[1]) then [Delete(key)]
      else []
    else if IsDir(key) then
      if key in s then if t.onDisk(key[1]) then [] else [Delete(key)]
      else if key[1] in t.emptyDirs then [Directory(key)]
      else []
    else []
  }

  ghost predicate IsDelta(atoms: seq<Atom>, s: State, t: Tree) {
    forall key :: At(atoms, key) == Wanted(s, t, key)
  }

  /** The prefixed diffs of the changed files, in whatever order the files come. */
  method PushFiles(s: State, t: Tree) returns (atoms: seq<Atom>)
    ensures forall key :: At(atoms, key) == if IsFile(key) && key[1] in t.changed then Wanted(s, t, key) else []
  {
    hide At, EditsFor, PrefixAll;
    atoms := [];
    AtNone();
    var rest := t.changed.Keys;
    while rest != {}
      invariant rest <= t.changed.Keys
      invariant forall key :: At(atoms, key) == if IsFile(key) && key[1] in t.changed && key[1] !in rest
                                                then Wanted(s, t, key) else []
    {
      var f :| f in rest;
      rest := rest - {f};
      var diff := DiffItems(t.changed[f].before, t.changed[f].after);
      FileAt(atoms, diff, t.changed[f].before, t.changed[f].after, f);
      atoms := atoms + PrefixAll(diff, f);
    }
  }

  lemma FileAt(atoms: seq<Atom>, diff: seq<Atom>, before: Items, after: Items, f: string)
    requires IsDiff(diff, before, after)
    ensures forall key :: At(atoms + PrefixAll(diff, f), key)
                       == At(atoms, key) + if Under(key, f) then PrefixAll(EditsFor(before, after, key[2..]), f) else []
  {
    forall key
      ensures At(atoms + PrefixAll(diff, f), key)
           == At(atoms, key) + if Under(key, f) then PrefixAll(EditsFor(before, after, key[2..]), f) else []
    {
      AtConcat(atoms, PrefixAll(diff, f), key);
      AtPrefixed(diff, f, key);
    }
  }

  /** The nodes of a file that is gone are deleted, except for these. */
  ghost predicate NodesGoneBut(atoms0: seq<Atom>, atoms: seq<Atom>, nodes: set<NodePath>, f: string,
                               rest: set<NodePath>) {
    forall key :: At(atoms, key) == if key in nodes && key !in rest && |key| > 2 && Under(key, f)
                                    then [Delete(key)] else At(atoms0, key)
  }

  lemma NodeStep(atoms0: seq<Atom>, atoms: seq<Atom>, nodes: set<NodePath>, f: string, rest: set<NodePath>,
                 key: NodePath)
    requires NodesGoneBut(atoms0, atoms, nodes, f, rest) && key in rest && key in nodes
    requires |key| > 2 && Under(key, f) ==> At(atoms0, key) == []
    ensures if |key| > 2 && Under(key, f) then NodesGoneBut(atoms0, atoms + [Delete(key)], nodes, f, rest - {key})
            else NodesGoneBut(atoms0, atoms, nodes, f, rest - {key})
  {
    hide At, Under;
    if |key| > 2 && Under(key, f) {
      PushedAt(atoms, Delete(key), key);
    }
  }

  /** At its own path, where nothing was, a pushed atom is alone; elsewhere nothing changes. */
  lemma PushedAt(atoms: seq<Atom>, a: Atom, key: NodePath)
    requires Key(a) == key
    ensures At(atoms, key) == [] ==> At(atoms + [a], key) == [a]
    ensures forall k :: k != key ==> At(atoms + [a], k) == At(atoms, k)
  {
    AtPush(atoms, a);
    hide At, Key;
    assert [] + [a] == [a];
    assert forall k :: k != key ==> At(atoms, k) + [] == At(atoms, k);
  }

  /** The nodes of one file that is gone are deleted. */
  method PushGoneFile(nodes: set<NodePath>, f: string, atoms0: seq<Atom>) returns (atoms: seq<Atom>)
    requires forall key :: key in nodes && |key| > 2 && Under(key, f) ==> At(atoms0, key) == []
    ensures NodesGoneBut(atoms0, atoms, nodes, f, {})
  {
    hide At, Under;
    atoms := atoms0;
    var keys := nodes;
    while keys != {}
      invariant keys <= nodes && NodesGoneBut(atoms0, atoms, nodes, f, keys)
    {
      var key :| key in keys;
      NodeStep(atoms0, atoms, nodes, f, keys, key);
      keys := keys - {key};
      if |key| > 2 && Under(key, f) {
        atoms := atoms + [Delete(key)];
      }
    }
  }

  /** The changed files are done, and the files that are gone except for these. */
  ghost predicate GoneBut(atoms: seq<Atom>, s: State, t: Tree, rest: set<string>) {
    forall key :: At(atoms, key) == if IsFile(key) && (key[1] in t.changed || key[1] !in rest)
                                    then Wanted(s, t, key) else []
  }

  lemma GoneStep(atoms: seq<Atom>, atoms': seq<Atom>, s: State, t: Tree, rest: set<string>, f: string)
    requires GoneBut(atoms, s, t, rest) && f in rest && (f in t.changed ==> t.onDisk(f))
    requires forall key :: At(atoms', key) == if key in s && |key| > 2 && Under(key, f) && !t.onDisk(f)
                                              then [Delete(key)] else At(atoms, key)
    ensures GoneBut(atoms', s, t, rest - {f})
  {
    hide At, EditsFor, PrefixAll;
    forall key
      ensures At(atoms', key) == if IsFile(key) && (key[1] in t.changed || key[1] !in rest - {f})
                                 then Wanted(s, t, key) else []
    {
      assert At(atoms, key) == if IsFile(key) && (key[1] in t.changed || key[1] !in rest)
                               then Wanted(s, t, key) else [];
    }
  }

  lemma GoneStart(atoms: seq<Atom>, s: State, t: Tree, files: set<string>)
    requires files == set key | key in s && IsFile(key) :: key[1]
    requires forall key :: At(atoms, key) == if IsFile(key) && key[1] in t.changed then Wanted(s, t, key) else []
    ensures GoneBut(atoms, s, t, files)
  {
    hide At, EditsFor, PrefixAll;
  }

  /** A file that is gone loses all its nodes. */
  method PushGone(s: State, t: Tree, atoms0: seq<Atom>) returns (atoms: seq<Atom>)
    requires forall f :: f in t.changed ==> t.onDisk(f)
    requires forall key :: At(atoms0, key) == if IsFile(key) && key[1] in t.changed then Wanted(s, t, key) else []
    ensures forall key :: At(atoms, key) == if IsFile(key) then Wanted(s, t, key) else []
  {
    hide At, Wanted;
    atoms := atoms0;
    var files := set key | key in s && IsFile(key) :: key[1];
    GoneStart(atoms, s, t, files);
    var rest := files;
    while rest != {}
      invariant rest <= files && GoneBut(atoms, s, t, rest)
    {
      var f :| f in rest;
      ghost var before := atoms;
      if !t.onDisk(f) {
        atoms := PushGoneFile(s.Keys, f, atoms);
      }
      GoneStep(before, atoms, s, t, rest, f);
      rest := rest - {f};
    }
  }

  /** All paths are done except for directories in these two sets. */
  ghost predicate DirsBut(atoms: seq<Atom>, s: State, t: Tree, added: set<string>, present: set<string>) {
    forall key :: At(atoms, key) == if IsDir(key) && (if key in s then key[1] in present else key[1] in added) then []
                                    else Wanted(s, t, key)
  }

  lemma DirStep(atoms: seq<Atom>, a: Atom, s: State, t: Tree, added: set<string>, present: set<string>, d: string)
    requires DirsBut(atoms, s, t, added, present) && Key(a) == DirKey(d)
    requires Wanted(s, t, DirKey(d)) == [a] && if DirKey(d) in s then d in present else d in added
    ensures DirsBut(atoms + [a], s, t, if DirKey(d) in s then added else added - {d},
                    if DirKey(d) in s then present - {d} else present)
  {
    PushedAt(atoms, a, DirKey(d));
    hide At, Wanted, Key;
    DirKeyIs(d);
  }

  lemma DirKeyIs(d: string)
    ensures IsDir(DirKey(d)) && DirKey(d)[1] == d && forall key :: IsDir(key) && key[1] == d ==> key == DirKey(d)
  {}

  lemma DirSkip(atoms: seq<Atom>, s: State, t: Tree, added: set<string>, present: set<string>, d: string)
    requires DirsBut(atoms, s, t, added, present)
    ensures DirKey(d) in s ==> DirsBut(atoms, s, t, added - {d}, present)
    ensures Wanted(s, t, DirKey(d)) == [] ==> DirsBut(atoms, s, t, added, present - {d})
  {
    hide At, Wanted;
    assert forall key :: IsDir(key) && key[1] == d ==> key == DirKey(d);
  }

  lemma DirStart(atoms: seq<Atom>, s: State, t: Tree, existing: set<string>)
    requires existing == set key | key in s && IsDir(key) :: key[1]
    requires forall key :: At(atoms, key) == if IsFile(key) then Wanted(s, t, key) else []
    ensures DirsBut(atoms, s, t, t.emptyDirs, existing)
    ensures forall d :: d in existing <==> DirKey(d) in s
  {
    hide At, EditsFor, PrefixAll;
    assert forall key :: IsDir(key) ==> key == DirKey(key[1]);
    assert forall d :: IsDir(DirKey(d)) && DirKey(d)[1] == d;
  }

  /** Directories that became empty or are gone. */
  method PushDirs(s: State, t: Tree, atoms0: seq<Atom>) returns (atoms: seq<Atom>)
    requires forall key :: At(atoms0, key) == if IsFile(key) then Wanted(s, t, key) else []
    ensures IsDelta(atoms, s, t)
  {
    hide At, DirsBut;
    atoms := atoms0;
    var existing := set key | key in s && IsDir(key) :: key[1];
    DirStart(atoms, s, t, existing);
    var rest := t.emptyDirs;
    while rest != {}
      invariant rest <= t.emptyDirs && DirsBut(atoms, s, t, rest, existing)
    {
      var d :| d in rest;
      if d !in existing {
        DirStep(atoms, Directory(DirKey(d)), s, t, rest, existing, d);
        atoms := atoms + [Directory(DirKey(d))];
      } else {
        DirSkip(atoms, s, t, rest, existing, d);
      }
      rest := rest - {d};
    }
    rest := existing;
    while rest != {}
      invariant rest <= existing && DirsBut(atoms, s, t, {}, rest)
    {
      var d :| d in rest;
      if !t.onDisk(d) {
        DirStep(atoms, Delete(DirKey(d)), s, t, {}, rest, d);
        atoms := atoms + [Delete(DirKey(d))];
      } else {
        DirSkip(atoms, s, t, {}, rest, d);
      }
      rest := rest - {d};
    }
    DirsDone(atoms, s, t);
  }

  lemma DirsDone(atoms: seq<Atom>, s: State, t: Tree)
    requires DirsBut(atoms, s, t, {}, {})
    ensures IsDelta(atoms, s, t)
  {
    hide At, Wanted;
  }

  /** Everything the working directory changes about the state. */
  method WorkingDelta(s: State, t: Tree) returns (atoms: seq<Atom>)
    requires forall f :: f in t.changed ==> t.onDisk(f)
    ensures IsDelta(atoms, s, t)
  {
    atoms := PushFiles(s, t);
    atoms := PushGone(s, t, atoms);
    atoms := PushDirs(s, t, atoms);
  }

  // ---- replaying the delta -------------------------------------------------

  /** What the working directory has at a key. */
  function NewCell(s: State, t: Tree, key: NodePath): Option<Bytes> {
    if IsFile(key) && key[1] in t.changed then Get(t.changed[key[1]].after, key[2..])
    else if IsFile(key) && |key| > 2 && !t.onDisk(key[1]) then None
    else if IsDir(key) && key in s && !t.onDisk(key[1]) then None
    else if IsDir(key) && key !in s && key[1] in t.emptyDirs then Some([])
    else Get(s, key)
  }

  lemma WantedTurns(s: State, t: Tree, key: NodePath)
    requires Reads(s, t)
    ensures RunCell(Get(s, key), Effects(Wanted(s, t, key))) == Some(NewCell(s, t, key))
  {
    hide Effects, RunCell, Reads, PrefixAll, EditsFor;
    if IsFile(key) && key[1] in t.changed {
      StateHasSlice(s, t, key);
      EditsTurn(t.changed[key[1]].before, t.changed[key[1]].after, key[1], key[2..]);
    } else {
      OtherTurns(s, t, key);
    }
  }

  lemma OtherTurns(s: State, t: Tree, key: NodePath)
    requires !(IsFile(key) && key[1] in t.changed)
    ensures RunCell(Get(s, key), Effects(Wanted(s, t, key))) == Some(NewCell(s, t, key))
  {
    hide Effects, RunCell, PrefixAll, EditsFor;
    var edits := Wanted(s, t, key);
    if edits == [] {
      NoEffects(Get(s, key));
    } else {
      assert edits == [edits[0]];
      OneEffect(edits[0], Get(s, key));
    }
  }

  lemma NoEffects(c: Option<Bytes>)
    ensures RunCell(c, Effects([])) == Some(c)
  {}

  lemma WantedIsPlain(s: State, t: Tree, key: NodePath, a: Atom)
    requires a in Wanted(s, t, key)
    ensures a.Insert? || a.Delete? || a.Directory?
    ensures Reads(s, t) && a.Delete? ==> key in s
  {
    if IsFile(key) && key[1] in t.changed {
      hide Reads;
      var f, k := key[1], key[2..];
      EditsArePlain(t.changed[f].before, t.changed[f].after, f, k, a);
      if Reads(s, t) {
        StateHasSlice(s, t, key);
      }
    } else {
      hide Reads, PrefixAll, EditsFor;
    }
  }

  lemma EditsArePlain(before: Items, after: Items, f: string, k: NodePath, a: Atom)
    requires a in PrefixAll(EditsFor(before, after, k), f)
    ensures a.Insert? || a.Delete?
    ensures a.Delete? ==> k in before
  {
    PrefixedMember(EditsFor(before, after, k), f, a);
  }

  /** The state has at a path under a changed file what the file's old items have. */
  lemma StateHasSlice(s: State, t: Tree, key: NodePath)
    requires Reads(s, t) && IsFile(key) && key[1] in t.changed
    ensures Get(s, key) == Get(t.changed[key[1]].before, key[2..])
  {
    UnderIsPrepend(key, key[1]);
    assert Get(s, Prepend(key[1], key[2..])) == Get(t.changed[key[1]].before, key[2..]);
  }

  lemma {:induction false} PrefixedMember(atoms: seq<Atom>, file: string, a: Atom)
    requires a in PrefixAll(atoms, file)
    ensures exists b :: b in atoms && a == PrefixAtom(b, file)
  {
    if a == PrefixAtom(atoms[0], file) {
      assert atoms[0] in atoms;
    } else {
      PrefixedMember(atoms[1..], file, a);
    }
  }

  lemma DeltaIsPlain(atoms: seq<Atom>, s: State, t: Tree)
    requires IsDelta(atoms, s, t)
    ensures Plain(atoms)
  {
    forall a | a in atoms ensures a.Insert? || a.Delete? || a.Directory? {
      AtMember(atoms, a);
      WantedIsPlain(s, t, Key(a), a);
    }
  }

  /** The whole delta applies to the state, and every key then holds what the working directory has. */
  lemma DeltaReplays(atoms: seq<Atom>, s: State, t: Tree)
    requires Reads(s, t) && IsDelta(atoms, s, t)
    ensures Run(s, Effects(atoms)).Some?
    ensures forall key :: Get(Run(s, Effects(atoms)).value, key) == NewCell(s, t, key)
  {
    DeltaIsPlain(atoms, s, t);
    forall key ensures RunCell(Get(s, key), Effects(At(atoms, key))) == Some(NewCell(s, t, key)) {
      WantedTurns(s, t, key);
    }
    CellsDecide(s, atoms, (key: NodePath) => NewCell(s, t, key));
  }

  /**
   What the delta turns the state into: every changed file has its new items, a missing file no nodes, a
   missing directory is gone, a new empty directory is there, and nothing else changed.
   */
  lemma DeltaTarget(atoms: seq<Atom>, s: State, t: Tree)
    requires Reads(s, t) && IsDelta(atoms, s, t)
    ensures Run(s, Effects(atoms)).Some?
    ensures forall f, k: NodePath :: f in t.changed ==>
              Get(Run(s, Effects(atoms)).value, ["file", f] + k) == Get(t.changed[f].after, k)
    ensures forall f, k: NodePath :: f !in t.changed && !t.onDisk(f) && k != [] ==>
              ["file", f] + k !in Run(s, Effects(atoms)).value
    ensures forall d :: ["dir", d] in s && !t.onDisk(d) ==> ["dir", d] !in Run(s, Effects(atoms)).value
    ensures forall d :: ["dir", d] !in s && d in t.emptyDirs ==>
              Get(Run(s, Effects(atoms)).value, ["dir", d]) == Some([])
    ensures forall key ::
              && !(|key| >= 2 && key[0] == "file" && (key[1] in t.changed || (|key| > 2 && !t.onDisk(key[1]))))
              && !(|key| == 2 && key[0] == "dir" && if key in s then !t.onDisk(key[1]) else key[1] in t.emptyDirs)
              ==> Get(Run(s, Effects(atoms)).value, key) == Get(s, key)
  {
    DeltaReplays(atoms, s, t);
    var u := Run(s, Effects(atoms)).value;
    hide Run, Effects, Reads, IsDelta;
    assert "file" != "dir";
    forall f, k: NodePath
      ensures f in t.changed ==> Get(u, ["file", f] + k) == Get(t.changed[f].after, k)
      ensures f !in t.changed && !t.onDisk(f) && k != [] ==> ["file", f] + k !in u
    {
      var key := ["file", f] + k;
      assert IsFile(key) && key[1] == f && key[2..] == k;
      assert Get(u, key) == NewCell(s, t, key);
    }
    forall d
      ensures ["dir", d] in s && !t.onDisk(d) ==> ["dir", d] !in u
      ensures ["dir", d] !in s && d in t.emptyDirs ==> Get(u, ["dir", d]) == Some([])
    {
      var key := ["dir", d];
      assert IsDir(key) && !IsFile(key) && key[1] == d;
      assert Get(u, key) == NewCell(s, t, key);
    }
  }

  /**
   The delta has an atom for exactly what differs between the state and the working directory: a delete of
   what is no longer there as it was, an insert of what is new or different, a directory that is new.
   */
  lemma DeltaHas(atoms: seq<Atom>, s: State, t: Tree, key: NodePath)
    requires Reads(s, t) && IsDelta(atoms, s, t)
    ensures Run(s, Effects(atoms)).Some?
    ensures var u := Run(s, Effects(atoms)).value;
            && (Delete(key) in atoms <==> key in s && Get(u, key) != Some(s[key]))
            && (Directory(key) in atoms <==> key !in s && key in u && |key| == 2 && key[0] == "dir")
            && forall c :: Insert(key, c) in atoms <==>
                 Get(u, key) == Some(c) && Get(s, key) != Some(c) && !(|key| == 2 && key[0] == "dir")
  {
    DeltaReplays(atoms, s, t);
    AtMember(atoms, Delete(key));
    AtMember(atoms, Directory(key));
    forall c {
      AtMember(atoms, Insert(key, c));
    }
    hide Run, Effects, At;
    WantedHas(s, t, key);
  }

  lemma WantedHas(s: State, t: Tree, key: NodePath)
    requires Reads(s, t)
    ensures Delete(key) in Wanted(s, t, key) <==> key in s && NewCell(s, t, key) != Some(s[key])
    ensures Directory(key) in Wanted(s, t, key) <==> key !in s && NewCell(s, t, key).Some? && IsDir(key)
    ensures forall c :: Insert(key, c) in Wanted(s, t, key) <==>
              NewCell(s, t, key) == Some(c) && Get(s, key) != Some(c) && !IsDir(key)
  {
    assert "file" != "dir";
    hide Reads, PrefixAll, EditsFor;
    if IsFile(key) && key[1] in t.changed {
      var d := t.changed[key[1]];
      StateHasSlice(s, t, key);
      UnderIsPrepend(key, key[1]);
      FileEditsAre(d.before, d.after, key[1], key[2..]);
      EditMembers(key, d.before, d.after, key[1], key[2..]);
    }
  }

  lemma EditMembers(key: NodePath, before: Items, after: Items, f: string, k: NodePath)
    requires key == Prepend(f, k)
    ensures var edits := PrefixAll(EditsFor(before, after, k), f);
            && (Delete(key) in edits <==> k in before && Get(after, k) != Some(before[k]))
            && Directory(key) !in edits
            && forall c :: Insert(key, c) in edits <==> Get(after, k) == Some(c) && Get(before, k) != Some(c)
  {
    FileEditsAre(before, after, f, k);
    hide PrefixAll, EditsFor, Prepend;
  }

  lemma FileEditsAre(before: Items, after: Items, f: string, k: NodePath)
    ensures PrefixAll(EditsFor(before, after, k), f)
         == (if k in before && Get(after, k) != Some(before[k]) then [Delete(Prepend(f, k))] else [])
            + if k in after && Get(before, k) != Some(after[k]) then [Insert(Prepend(f, k), after[k])] else []
  {
    var edits := EditsFor(before, after, k);
    if |edits| == 1 {
      OnePrefixed(edits, f);
    } else if |edits| == 2 {
      assert edits[1..] == [edits[1]] && edits[1..][1..] == [];
      assert PrefixAll(edits, f) == [PrefixAtom(edits[0], f), PrefixAtom(edits[1], f)];
    }
  }

  // ---- staging a part of the delta -----------------------------------------

  /** The atoms the user keeps. */
  function Staged(atoms: seq<Atom>, keep: seq<bool>): seq<Atom>
    requires |keep| == |atoms|
  {
    if atoms == [] then []
    else if keep[0] then [atoms[0]] + Staged(atoms[1..], keep[1..])
    else Staged(atoms[1..], keep[1..])
  }

  /** The kept atoms in their order: of two lists one after the other, what is kept of each. */
  lemma {:induction false} StagedConcat(a: seq<Atom>, b: seq<Atom>, keepA: seq<bool>, keepB: seq<bool>)
    requires |keepA| == |a| && |keepB| == |b|
    ensures Staged(a + b, keepA + keepB) == Staged(a, keepA) + Staged(b, keepB)
  {
    if a == [] {
      assert a + b == b && keepA + keepB == keepB;
    } else {
      assert (a + b)[1..] == a[1..] + b && (keepA + keepB)[1..] == keepA[1..] + keepB;
      StagedConcat(a[1..], b, keepA[1..], keepB);
    }
  }

  lemma StagedOne(a: Atom, keep: bool)
    ensures Staged([a], [keep]) == if keep then [a] else []
  {
    assert [a][1..] == [] && [keep][1..] == [] && Staged([], []) == [];
  }

  ghost predicate Within(a: seq<Atom>, b: seq<Atom>) {
    if a == [] then true
    else b != [] && ((a[0] == b[0] && Within(a[1..], b[1..])) || Within(a, b[1..]))
  }

  lemma WithinPush(a: seq<Atom>, b: seq<Atom>, x: Atom)
    requires Within(a, b)
    ensures Within(a, [x] + b) && Within([x] + a, [x] + b)
  {
    assert ([x] + a)[1..] == a && ([x] + b)[1..] == b;
  }

  lemma {:induction false} WithinSize(a: seq<Atom>, b: seq<Atom>)
    requires Within(a, b)
    ensures |a| <= |b| && (|a| == |b| ==> a == b)
    ensures forall x :: x in a ==> x in b
  {
    if a != [] {
      if a[0] == b[0] && Within(a[1..], b[1..]) {
        WithinSize(a[1..], b[1..]);
        assert a == [a[0]] + a[1..] && b == [b[0]] + b[1..];
      } else {
        WithinSize(a, b[1..]);
      }
    }
  }

  lemma {:induction false} StagedAt(atoms: seq<Atom>, keep: seq<bool>, k: NodePath)
    requires |keep| == |atoms|
    ensures Within(At(Staged(atoms, keep), k), At(atoms, k))
    ensures forall a :: a in Staged(atoms, keep) ==> a in atoms
  {
    if atoms != [] {
      var rest := Staged(atoms[1..], keep[1..]);
      StagedAt(atoms[1..], keep[1..], k);
      WithinPush(At(rest, k), At(atoms[1..], k), atoms[0]);
      if keep[0] {
        assert Staged(atoms, keep)[1..] == rest;
      } else {
        assert Staged(atoms, keep) == rest;
      }
    }
  }

  lemma WantedSize(s: State, t: Tree, key: NodePath)
    ensures |Wanted(s, t, key)| <= 2
  {}

  /** Any part of what the delta does at a path applies to the old cell. */
  lemma PartApplies(part: seq<Atom>, s: State, t: Tree, key: NodePath)
    requires Reads(s, t) && Within(part, Wanted(s, t, key))
    ensures RunCell(Get(s, key), Effects(part)).Some?
  {
    hide Wanted, Effects, RunCell;
    WantedSize(s, t, key);
    WithinSize(part, Wanted(s, t, key));
    if part == Wanted(s, t, key) {
      WantedTurns(s, t, key);
    } else if part == [] {
      NoEffects(Get(s, key));
    } else {
      assert part == [part[0]] && part[0] in Wanted(s, t, key);
      WantedIsPlain(s, t, key, part[0]);
      OneEffect(part[0], Get(s, key));
    }
  }

  /** Whatever part of the delta the user stages, it applies to the state it was computed from. */
  lemma StagedReplays(atoms: seq<Atom>, keep: seq<bool>, s: State, t: Tree)
    requires Reads(s, t) && IsDelta(atoms, s, t) && |keep| == |atoms|
    ensures Run(s, Effects(Staged(atoms, keep))).Some?
  {
    hide Effects, Staged, Within, Wanted, At;
    DeltaIsPlain(atoms, s, t);
    StagedAt(atoms, keep, []);
    forall key ensures RunCell(Get(s, key), Effects(At(Staged(atoms, keep), key))).Some? {
      StagedAt(atoms, keep, key);
      PartApplies(At(Staged(atoms, keep), key), s, t, key);
    }
    CellsSucceed(s, Staged(atoms, keep));
  }

  // ---- recording it --------------------------------------------------------

  /** For a change whose author passes the gate the effects of its atoms are its writes. */
  lemma {:induction false} EffectsAreWrites(c: Change, ignore: Ignore, n: nat)
    requires n <= |c.atoms| && forall a :: a in c.atoms ==> !Blocked(c, a, ignore)
    ensures Effects(c.atoms[|c.atoms| - n..]) == Writes(c, ignore)[|c.atoms| - n..]
  {
    if n > 0 {
      var i := |c.atoms| - n;
      EffectsAreWrites(c, ignore, n - 1);
      assert c.atoms[i..][1..] == c.atoms[i + 1..] && c.atoms[i..][0] == c.atoms[i];
      assert Writes(c, ignore)[i..] == [Writes(c, ignore)[i]] + Writes(c, ignore)[i + 1..];
    }
  }

  lemma BlockedFails(c: Change, a: Atom, s: State, ignore: Ignore)
    requires a in c.atoms && Blocked(c, a, ignore)
    ensures Run(s, Writes(c, ignore)).None?
  {
    var i :| 0 <= i < |c.atoms| && c.atoms[i] == a;
    assert Writes(c, ignore)[i].Fail?;
    RunSucceeds(s, Writes(c, ignore));
  }

  /**
   When a recorded change can be replayed. A snap writes what was staged without asking the gate that
   replay will ask: the change applies to the state it was computed from exactly when its author may
   touch everything that was staged.
   */
  lemma RecordedApplies(c: Change, atoms: seq<Atom>, keep: seq<bool>, s: State, t: Tree, ignore: Ignore)
    requires Reads(s, t) && IsDelta(atoms, s, t) && |keep| == |atoms| && c.atoms == Staged(atoms, keep)
    ensures Run(s, Writes(c, ignore)).Some? <==> forall a :: a in c.atoms ==> !Blocked(c, a, ignore)
  {
    if a :| a in c.atoms && Blocked(c, a, ignore) {
      BlockedFails(c, a, s, ignore);
    } else {
      StagedReplays(atoms, keep, s, t);
      EffectsAreWrites(c, ignore, |c.atoms|);
      assert c.atoms[0..] == c.atoms && Writes(c, ignore)[0..] == Writes(c, ignore);
    }
  }

  /** So a snap of any staged part of the working directory keeps every view sound exactly then. */
  lemma SnapOfWorkKeepsInv(r: Repo, c: Change, r': Repo, atoms: seq<Atom>, keep: seq<bool>, t: Tree, ignore: Ignore)
    requires Inv(r, ignore) && SnapStep(r, c, r') && c.id !in r.store
    requires var s := Materialized(r.store, Ancestry(r.store, c.deps), ignore);
             s.Some? && Reads(s.value, t) && IsDelta(atoms, s.value, t)
    requires |keep| == |atoms| && c.atoms == Staged(atoms, keep)
    ensures Inv(r', ignore) <==> forall a :: a in c.atoms ==> !Blocked(c, a, ignore)
  {
    var s := Materialized(r.store, Ancestry(r.store, c.deps), ignore).value;
    RecordedApplies(c, atoms, keep, s, t, ignore);
    if AppliesTo(r.store, c, ignore) {
      RecordKeepsInv(r, c, r.current, r', ignore);
    } else {
      RecordExtends(r.store, c, r'.store);
      SnapAppends(r.store, c, r'.store, ignore);
    }
  }

  /**
   An AI author adds one function to a file the ignore rules list: the snap is recorded, and its view
   no longer replays.
   */
  lemma BlockedSnapBreaks(c: Change, t: Tree, ignore: Ignore)
    requires c.id == 0 && c.deps == {} && c.author.AI? && ignore("a.rs", false)
    requires c.atoms == [Insert(["file", "a.rs", "f"], [])]
    requires t.changed == map["a.rs" := FileDiff(map[], map[["f"] := []])] && t.onDisk("a.rs") && t.emptyDirs == {}
    ensures Reads(map[], t) && IsDelta(c.atoms, map[], t)
    ensures Inv(Repo(map[], map["main" := {}], "main"), ignore)
    ensures SnapStep(Repo(map[], map["main" := {}], "main"), c, Repo(map[0 := c], map["main" := {0}], "main"))
    ensures !Inv(Repo(map[0 := c], map["main" := {0}], "main"), ignore)
  {
    var none: State := map[];
    var a := Insert(["file", "a.rs", "f"], []);
    var r, r' := Repo(map[], map["main" := {}], "main"), Repo(map[0 := c], map["main" := {0}], "main");
    forall key ensures At(c.atoms, key) == Wanted(none, t, key) {
      AtOne(a, key);
      OneFileWanted(t, key);
    }
    InitInv(ignore);
    NothingIsSound(map[], ignore);
    assert Staged(c.atoms, [true]) == c.atoms by {
      assert c.atoms[1..] == [] && Staged([], []) == [];
    }
    assert a in c.atoms && ["file", "a.rs", "f"] in a.Paths() && Restricted(["file", "a.rs", "f"], ignore);
    SnapOfWorkKeepsInv(r, c, r', c.atoms, [true], t, ignore);
  }

  lemma OneFileWanted(t: Tree, key: NodePath)
    requires t.changed == map["a.rs" := FileDiff(map[], map[["f"] := []])] && t.emptyDirs == {}
    ensures Wanted(map[], t, key) == if key == ["file", "a.rs", "f"] then [Insert(key, [])] else []
  {
    if IsFile(key) && key[1] == "a.rs" {
      UnderIsPrepend(key, "a.rs");
      var edits := EditsFor(map[], map[["f"] := []], key[2..]);
      if key[2..] == ["f"] {
        assert key == ["file", "a.rs", "f"];
        OnePrefixed(edits, "a.rs");
      }
    }
  }
}
