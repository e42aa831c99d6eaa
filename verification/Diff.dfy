/**
 The item diff of one file (`diff` in `src/ast/rust_plugin.rs`, from the two item maps onward) and its
 replay under the file's prefix (`prefix_atom_path` in `src/store/repo.rs`).
 */
module Diff {
  import opened Base
  import opened Cells
  import opened Algebra
  import opened Paths

  type Items = map<NodePath, Bytes>

  // ---- sorting atoms by path -----------------------------------------------

  /** The path an atom is sorted by. */
  function Key(a: Atom): NodePath {
    match a
    case Insert(at, _) => at
    case Delete(at) => at
    case SemanticsPreserving(at, _) => at
    case Move(from, _) => from
    case Directory(path) => path
  }

  /** An atom is sorted by the first path it names. */
  lemma KeyIsFirstPath(a: Atom)
    ensures a.Paths() != [] && Key(a) == a.Paths()[0] && Names(a, Key(a))
  {}

  ghost predicate Sorted(s: seq<Atom>) {
    forall i, j :: 0 <= i < j < |s| ==> !PathLess(Key(s[j]), Key(s[i]))
  }

  /** The atoms sorted by one path, in their order. */
  function At(s: seq<Atom>, k: NodePath): seq<Atom> {
    if s == [] then [] else if Key(s[0]) == k then [s[0]] + At(s[1..], k) else At(s[1..], k)
  }

  lemma {:induction false} AtConcat(a: seq<Atom>, b: seq<Atom>, k: NodePath)
    ensures At(a + b, k) == At(a, k) + At(b, k)
  {
    if a == [] {
      assert a + b == b;
    } else {
      assert (a + b)[0] == a[0] && (a + b)[1..] == a[1..] + b;
      AtConcat(a[1..], b, k);
    }
  }

  lemma AtOne(a: Atom, k: NodePath)
    ensures At([a], k) == if Key(a) == k then [a] else []
  {
    assert [a][1..] == [];
  }

  lemma {:induction false} AtMember(s: seq<Atom>, a: Atom)
    ensures a in s <==> a in At(s, Key(a))
  {
    if s != [] {
      AtMember(s[1..], a);
    }
  }

  /**
   The library's stable sort, as insertion of each atom behind those that are not greater: sorted, and
   the atoms of each path keep their order.
   */
  method StableSort(s: seq<Atom>) returns (r: seq<Atom>)
    ensures Sorted(r) && forall k :: At(r, k) == At(s, k)
  {
    r := [];
    for i := 0 to |s|
      invariant Sorted(r) && forall k :: At(r, k) == At(s[..i], k)
    {
      var a := s[i];
      var j := |r|;
      while j > 0 && PathLess(Key(a), Key(r[j - 1]))
        invariant 0 <= j <= |r|
        invariant forall l :: j <= l < |r| ==> PathLess(Key(a), Key(r[l]))
      {
        j := j - 1;
      }
      Inserted(r, a, j);
      forall k ensures At(r[..j] + [a] + r[j..], k) == At(s[..i + 1], k) {
        InsertedAt(r, a, j, k);
        assert s[..i + 1] == s[..i] + [a];
        AtConcat(s[..i], [a], k);
      }
      r := r[..j] + [a] + r[j..];
    }
    assert s[..|s|] == s;
  }

  lemma Inserted(r: seq<Atom>, a: Atom, j: nat)
    requires Sorted(r) && j <= |r|
    requires forall l :: j <= l < |r| ==> PathLess(Key(a), Key(r[l]))
    requires j > 0 ==> !PathLess(Key(a), Key(r[j - 1]))
    ensures Sorted(r[..j] + [a] + r[j..])
  {
    hide PathLess, Key;
    var t := r[..j] + [a] + r[j..];
    forall l | 0 <= l < j ensures !PathLess(Key(a), Key(r[l])) {
      if PathLess(Key(a), Key(r[l])) && l < j - 1 {
        PathTotal(Key(r[l]), Key(r[j - 1]));
        if PathLess(Key(r[l]), Key(r[j - 1])) {
          PathTrans(Key(a), Key(r[l]), Key(r[j - 1]));
        }
      }
    }
    forall l | j <= l < |r| ensures !PathLess(Key(r[l]), Key(a)) {
      if PathLess(Key(r[l]), Key(a)) {
        PathTrans(Key(a), Key(r[l]), Key(a));
        PathIrreflexive(Key(a));
      }
    }
    forall x, y | 0 <= x < y < |t| ensures !PathLess(Key(t[y]), Key(t[x])) {
      var ix, iy := if x < j then x else x - 1, if y < j then y else y - 1;
      assert x != j ==> t[x] == r[ix];
      assert y != j ==> t[y] == r[iy];
    }
  }

  lemma InsertedAt(r: seq<Atom>, a: Atom, j: nat, k: NodePath)
    requires j <= |r| && forall l :: j <= l < |r| ==> PathLess(Key(a), Key(r[l]))
    ensures At(r[..j] + [a] + r[j..], k) == At(r, k) + At([a], k)
  {
    hide At, PathLess;
    AtConcat(r[..j] + [a], r[j..], k);
    AtConcat(r[..j], [a], k);
    assert r == r[..j] + r[j..];
    AtConcat(r[..j], r[j..], k);
    AtOne(a, k);
    if Key(a) == k {
      NoneAt(r[j..], k);
    } else {
      assert At(r[..j], k) + [] == At(r[..j], k);
    }
  }

  lemma {:induction false} NoneAt(s: seq<Atom>, k: NodePath)
    requires forall i :: 0 <= i < |s| ==> PathLess(k, Key(s[i]))
    ensures At(s, k) == []
  {
    if s != [] {
      PathIrreflexive(k);
      NoneAt(s[1..], k);
    }
  }

  /** A sorted list is determined by its atoms at each path. */
  lemma {:induction false} SortedUnique(a: seq<Atom>, b: seq<Atom>)
    requires Sorted(a) && Sorted(b) && forall k :: At(a, k) == At(b, k)
    ensures a == b
  {
    if a == [] {
      if b != [] {
        AtMember(b, b[0]);
        AtMember(a, b[0]);
      }
    } else {
      AtMember(a, a[0]);
      AtMember(b, a[0]);
      assert a[0] in b;
      AtMember(b, b[0]);
      AtMember(a, b[0]);
      assert b[0] in a;
      PathTotal(Key(a[0]), Key(b[0]));
      var i :| 0 <= i < |b| && b[i] == a[0];
      var j :| 0 <= j < |a| && a[j] == b[0];
      assert Key(a[0]) == Key(b[0]);
      assert At(a, Key(a[0]))[0] == a[0] && At(b, Key(a[0]))[0] == b[0];
      forall k ensures At(a[1..], k) == At(b[1..], k) {
        assert At(a, k) == At(b, k);
        if Key(a[0]) == k {
          assert At(a, k)[1..] == At(a[1..], k) && At(b, k)[1..] == At(b[1..], k);
        }
      }
      SortedUnique(a[1..], b[1..]);
    }
  }

  // ---- the diff ------------------------------------------------------------

  /** What the diff does at one path. */
  function EditsFor(before: Items, after: Items, k: NodePath): seq<Atom> {
    if k in before && k !in after then [Delete(k)]
    else if k !in before && k in after then [Insert(k, after[k])]
    else if k in before && k in after && before[k] != after[k] then [Delete(k), Insert(k, after[k])]
    else []
  }

  ghost predicate IsDiff(atoms: seq<Atom>, before: Items, after: Items) {
    Sorted(atoms) && forall k :: At(atoms, k) == EditsFor(before, after, k)
  }

  /** The two item maps have one diff. */
  lemma DiffUnique(a: seq<Atom>, b: seq<Atom>, before: Items, after: Items)
    requires IsDiff(a, before, after) && IsDiff(b, before, after)
    ensures a == b
  {
    SortedUnique(a, b);
  }

  /**
   The atoms of a diff: a delete of exactly the old items that are gone or differ, an insert of exactly the new
   items that are new or differ, each once, and the delete of a path before its insert.
   */
  lemma DiffHas(atoms: seq<Atom>, before: Items, after: Items)
    requires IsDiff(atoms, before, after)
    ensures forall k :: Delete(k) in atoms <==> k in before && Get(after, k) != Some(before[k])
    ensures forall k, c :: Insert(k, c) in atoms <==> Get(after, k) == Some(c) && Get(before, k) != Some(c)
    ensures forall a :: a in atoms ==> a.Delete? || a.Insert?
    ensures forall i, j :: 0 <= i < j < |atoms| && Key(atoms[i]) == Key(atoms[j]) ==>
              atoms[i].Delete? && atoms[j].Insert?
  {
    hide IsDiff, Key;
    forall k
      ensures Delete(k) in atoms <==> k in before && Get(after, k) != Some(before[k])
      ensures forall c :: Insert(k, c) in atoms <==> Get(after, k) == Some(c) && Get(before, k) != Some(c)
    {
      MembersAt(atoms, before, after, k);
      EditsAre(before, after, k);
    }
    forall a | a in atoms ensures a.Delete? || a.Insert? {
      OnlyEdits(atoms, before, after, a);
    }
    forall i, j | 0 <= i < j < |atoms| && Key(atoms[i]) == Key(atoms[j]) ensures atoms[i].Delete? && atoms[j].Insert? {
      DeleteThenInsert(atoms, before, after, i, j);
    }
  }

  lemma OnlyEdits(atoms: seq<Atom>, before: Items, after: Items, a: Atom)
    requires IsDiff(atoms, before, after) && a in atoms
    ensures a.Delete? || a.Insert?
  {
    AtMember(atoms, a);
  }

  lemma DeleteThenInsert(atoms: seq<Atom>, before: Items, after: Items, i: nat, j: nat)
    requires IsDiff(atoms, before, after) && i < j < |atoms| && Key(atoms[i]) == Key(atoms[j])
    ensures atoms[i].Delete? && atoms[j].Insert?
  {
    hide At, EditsFor, Sorted;
    TwoAt(atoms, i, j);
    EditsInOrder(before, after, Key(atoms[i]));
  }

  lemma MembersAt(atoms: seq<Atom>, before: Items, after: Items, k: NodePath)
    requires IsDiff(atoms, before, after)
    ensures Delete(k) in atoms <==> Delete(k) in EditsFor(before, after, k)
    ensures forall c :: Insert(k, c) in atoms <==> Insert(k, c) in EditsFor(before, after, k)
  {
    hide At, EditsFor;
    AtMember(atoms, Delete(k));
    forall c {
      AtMember(atoms, Insert(k, c));
    }
  }

  lemma EditsAre(before: Items, after: Items, k: NodePath)
    ensures Delete(k) in EditsFor(before, after, k) <==> k in before && Get(after, k) != Some(before[k])
    ensures forall c :: Insert(k, c) in EditsFor(before, after, k) <==>
              Get(after, k) == Some(c) && Get(before, k) != Some(c)
  {}

  lemma EditsInOrder(before: Items, after: Items, k: NodePath)
    ensures forall x, y :: 0 <= x < y < |EditsFor(before, after, k)| ==>
              EditsFor(before, after, k)[x].Delete? && EditsFor(before, after, k)[y].Insert?
  {
    var edits := EditsFor(before, after, k);
    assert |edits| <= 2 && (|edits| == 2 ==> edits[0].Delete? && edits[1].Insert?);
    forall x, y | 0 <= x < y < |edits| ensures edits[x].Delete? && edits[y].Insert? {
      assert x == 0 && y == 1;
    }
  }

  /** Two atoms of one path are found in their order among the atoms of that path. */
  lemma {:induction false} TwoAt(s: seq<Atom>, i: nat, j: nat)
    requires i < j < |s| && Key(s[i]) == Key(s[j])
    ensures exists x, y :: 0 <= x < y < |At(s, Key(s[i]))| && At(s, Key(s[i]))[x] == s[i] && At(s, Key(s[i]))[y] == s[j]
  {
    var k := Key(s[i]);
    var rest := At(s[1..], k);
    if i == 0 {
      assert s[j] in s[1..] by {
        assert s[1..][j - 1] == s[j];
      }
      AtMember(s[1..], s[j]);
      var y :| 0 <= y < |rest| && rest[y] == s[j];
      assert At(s, k)[0] == s[0] && At(s, k)[y + 1] == s[j];
    } else {
      TwoAt(s[1..], i - 1, j - 1);
      var x, y :| 0 <= x < y < |rest| && rest[x] == s[i] && rest[y] == s[j];
      if Key(s[0]) == k {
        assert At(s, k)[x + 1] == s[i] && At(s, k)[y + 1] == s[j];
      } else {
        assert At(s, k)[x] == s[i] && At(s, k)[y] == s[j];
      }
    }
  }

  lemma AtNone()
    ensures forall k :: At([], k) == []
  {
  }

  lemma AtPush(atoms: seq<Atom>, a: Atom)
    ensures forall k :: At(atoms + [a], k) == At(atoms, k) + if Key(a) == k then [a] else []
  {
    forall k ensures At(atoms + [a], k) == At(atoms, k) + if Key(a) == k then [a] else [] {
      AtConcat(atoms, [a], k);
      AtOne(a, k);
    }
  }

  /** The paths only in the old map are deleted. */
  method PushDeletes(before: Items, after: Items) returns (atoms: seq<Atom>)
    ensures forall k :: At(atoms, k) == if k in before && k !in after then [Delete(k)] else []
  {
    hide At;
    atoms := [];
    AtNone();
    var rest := before.Keys;
    while rest != {}
      invariant rest <= before.Keys
      invariant forall k :: At(atoms, k) == if k in before && k !in rest && k !in after then [Delete(k)] else []
    {
      var path :| path in rest;
      rest := rest - {path};
      if path !in after {
        AtPush(atoms, Delete(path));
        atoms := atoms + [Delete(path)];
      }
    }
  }

  /** The paths only in the new map are inserted. */
  method PushInserts(before: Items, after: Items, deletes: seq<Atom>) returns (atoms: seq<Atom>)
    requires forall k :: At(deletes, k) == if k in before && k !in after then [Delete(k)] else []
    ensures DoneBut(atoms, before, after, before.Keys)
  {
    hide At;
    atoms := deletes;
    var rest := after.Keys;
    while rest != {}
      invariant rest <= after.Keys
      invariant forall k :: At(atoms, k) ==
                  if k in before && k !in after then [Delete(k)]
                  else if k in after && k !in rest && k !in before then [Insert(k, after[k])] else []
    {
      var path :| path in rest;
      rest := rest - {path};
      if path !in before {
        AtPush(atoms, Insert(path, after[path]));
        atoms := atoms + [Insert(path, after[path])];
      }
    }
  }

  /** The edits of all paths but these are there. */
  ghost predicate DoneBut(atoms: seq<Atom>, before: Items, after: Items, rest: set<NodePath>) {
    forall k :: At(atoms, k) == if k in rest && k in after then [] else EditsFor(before, after, k)
  }

  lemma ReplaceStep(atoms: seq<Atom>, before: Items, after: Items, rest: set<NodePath>, path: NodePath)
    requires DoneBut(atoms, before, after, rest) && path in rest && path in before && path in after
    ensures
      before[path] != after[path] ==>
        DoneBut(atoms + [Delete(path)] + [Insert(path, after[path])], before, after, rest - {path})
    ensures before[path] == after[path] ==> DoneBut(atoms, before, after, rest - {path})
  {
    var d, i := Delete(path), Insert(path, after[path]);
    forall k
      ensures At(atoms + [d] + [i], k) == if k == path then At(atoms, k) + [d, i] else At(atoms, k)
    {
      AtConcat(atoms + [d], [i], k);
      AtConcat(atoms, [d], k);
      AtOne(d, k);
      AtOne(i, k);
      hide At;
      if k == path {
        assert At(atoms, k) + [d] + [i] == At(atoms, k) + [d, i];
      }
    }
    hide At;
    assert At(atoms, path) == [];
    assert [] + [d, i] == [d, i];
  }

  /** The paths whose content differs are deleted, then inserted. */
  method PushReplacements(before: Items, after: Items, others: seq<Atom>) returns (atoms: seq<Atom>)
    requires DoneBut(others, before, after, before.Keys)
    ensures DoneBut(atoms, before, after, {})
  {
    hide At, EditsFor, DoneBut;
    atoms := others;
    var rest := before.Keys;
    while rest != {}
      invariant rest <= before.Keys && DoneBut(atoms, before, after, rest)
    {
      var path :| path in rest;
      if path in after {
        ReplaceStep(atoms, before, after, rest, path);
        if before[path] != after[path] {
          atoms := atoms + [Delete(path)] + [Insert(path, after[path])];
        }
      } else {
        SkipStep(atoms, before, after, rest, path);
      }
      rest := rest - {path};
    }
  }

  lemma SkipStep(atoms: seq<Atom>, before: Items, after: Items, rest: set<NodePath>, path: NodePath)
    requires DoneBut(atoms, before, after, rest) && path !in after
    ensures DoneBut(atoms, before, after, rest - {path})
  {
    hide At, EditsFor;
  }

  /** Compare two item maps, each iterated in whatever order it happens to give. */
  method DiffItems(before: Items, after: Items) returns (atoms: seq<Atom>)
    ensures IsDiff(atoms, before, after)
  {
    hide At;
    atoms := PushDeletes(before, after);
    atoms := PushInserts(before, after, atoms);
    atoms := PushReplacements(before, after, atoms);
    atoms := StableSort(atoms);
  }

  // ---- replaying the diff --------------------------------------------------

  function Prepend(file: string, p: NodePath): NodePath {
    ["file", file] + p
  }

  /** Put every path of an atom under the file. */
  function PrefixAtom(a: Atom, file: string): Atom {
    match a
    case Insert(at, content) => Insert(Prepend(file, at), content)
    case Delete(at) => Delete(Prepend(file, at))
    case Move(from, to) => Move(Prepend(file, from), Prepend(file, to))
    case SemanticsPreserving(at, d) => SemanticsPreserving(Prepend(file, at), d)
    case Directory(path) => Directory(Prepend(file, path))
  }

  /** The prefixed atom is of the same kind, with `["file", file]` in front of every path and nothing else changed. */
  lemma PrefixIs(a: Atom, file: string)
    ensures |PrefixAtom(a, file).Paths()| == |a.Paths()|
    ensures forall i :: 0 <= i < |a.Paths()| ==> PrefixAtom(a, file).Paths()[i] == ["file", file] + a.Paths()[i]
    ensures a.Insert? ==> PrefixAtom(a, file).Insert? && PrefixAtom(a, file).content == a.content
    ensures a.Delete? ==> PrefixAtom(a, file).Delete?
    ensures a.Move? ==> PrefixAtom(a, file).Move?
    ensures a.SemanticsPreserving? ==>
              PrefixAtom(a, file).SemanticsPreserving? && PrefixAtom(a, file).description == a.description
    ensures a.Directory? ==> PrefixAtom(a, file).Directory?
  {}

  function PrefixAll(atoms: seq<Atom>, file: string): (r: seq<Atom>)
    ensures |r| == |atoms|
  {
    if atoms == [] then [] else [PrefixAtom(atoms[0], file)] + PrefixAll(atoms[1..], file)
  }

  /** The state's items under a file are these. */
  ghost predicate SliceIs(s: State, file: string, items: Items) {
    forall k: NodePath :: Get(s, Prepend(file, k)) == Get(items, k)
  }

  /** What atoms that pass the gate write. */
  ghost function Effects(atoms: seq<Atom>): seq<Write<Bytes>> {
    if atoms == [] then [] else [Effect(atoms[0])] + Effects(atoms[1..])
  }

  ghost function Effect(a: Atom): Write<Bytes> {
    match a
    case Insert(at, content) => Put(at, content)
    case Delete(at) => Remove(at)
    case Directory(path) => Ensure(path, [])
    case _ => Fail
  }

  /** Atoms of the kinds that have a replay. */
  ghost predicate Plain(atoms: seq<Atom>) {
    forall a :: a in atoms ==> a.Insert? || a.Delete? || a.Directory?
  }

  /** The writes of a key are those of the atoms sorted by it. */
  lemma {:induction false} EffectsAt(atoms: seq<Atom>, key: NodePath)
    requires Plain(atoms)
    ensures Proj(Effects(atoms), key) == Effects(At(atoms, key)) && NoFail(Effects(atoms))
  {
    if atoms != [] {
      var a, rest := atoms[0], atoms[1..];
      assert a in atoms && forall b :: b in rest ==> b in atoms;
      EffectsAt(rest, key);
      var ws := Effects(atoms);
      assert ws[0] == Effect(a) && ws[1..] == Effects(rest);
      var at := At(atoms, key);
      assert Key(a) == key ==> at[0] == a && at[1..] == At(rest, key);
    }
  }

  /** A list of atoms runs when each path's own atoms run from that path's cell. */
  lemma CellsSucceed(s: State, atoms: seq<Atom>)
    requires Plain(atoms) && forall key :: RunCell(Get(s, key), Effects(At(atoms, key))).Some?
    ensures Run(s, Effects(atoms)).Some?
  {
    EffectsAt(atoms, []);
    forall key ensures RunCell(Get(s, key), Proj(Effects(atoms), key)).Some? {
      EffectsAt(atoms, key);
    }
    RunSucceeds(s, Effects(atoms));
  }

  /** And each key then holds what its own atoms leave there. */
  lemma CellsDecide(s: State, atoms: seq<Atom>, cell: NodePath -> Option<Bytes>)
    requires Plain(atoms) && forall key :: RunCell(Get(s, key), Effects(At(atoms, key))) == Some(cell(key))
    ensures Run(s, Effects(atoms)).Some? && forall key :: Get(Run(s, Effects(atoms)).value, key) == cell(key)
  {
    CellsSucceed(s, atoms);
    forall key ensures Get(Run(s, Effects(atoms)).value, key) == cell(key) {
      EffectsAt(atoms, key);
      RunAt(s, Effects(atoms), key);
    }
  }

  // ---- a diff under its file -----------------------------------------------

  /** A path under the file. */
  predicate Under(key: NodePath, file: string) {
    |key| >= 2 && key[0] == "file" && key[1] == file
  }

  lemma UnderIsPrepend(key: NodePath, file: string)
    ensures Under(key, file) ==> key == Prepend(file, key[2..])
    ensures forall k :: Under(Prepend(file, k), file) && Prepend(file, k)[2..] == k
  {}

  /** The prefixed atoms of a path under the file are the file's own atoms of the rest of that path. */
  lemma {:induction false} AtPrefixed(atoms: seq<Atom>, file: string, key: NodePath)
    ensures At(PrefixAll(atoms, file), key) == if Under(key, file) then PrefixAll(At(atoms, key[2..]), file) else []
  {
    if atoms != [] {
      var p := PrefixAll(atoms, file);
      assert p[0] == PrefixAtom(atoms[0], file) && p[1..] == PrefixAll(atoms[1..], file);
      AtPrefixed(atoms[1..], file, key);
      UnderIsPrepend(key, file);
      assert Key(p[0]) == Prepend(file, Key(atoms[0]));
      if Under(key, file) && Key(atoms[0]) == key[2..] {
        var at := At(atoms, key[2..]);
        assert at[0] == atoms[0] && at[1..] == At(atoms[1..], key[2..]);
      }
    }
  }

  lemma {:induction false} PlainPrefixed(atoms: seq<Atom>, file: string)
    requires Plain(atoms)
    ensures Plain(PrefixAll(atoms, file))
  {
    if atoms != [] {
      assert atoms[0] in atoms && forall b :: b in atoms[1..] ==> b in atoms;
      PlainPrefixed(atoms[1..], file);
    }
  }

  lemma DiffIsPlain(atoms: seq<Atom>, before: Items, after: Items)
    requires IsDiff(atoms, before, after)
    ensures Plain(atoms)
  {
    forall a | a in atoms ensures a.Insert? || a.Delete? {
      AtMember(atoms, a);
    }
  }

  /** The edits of one path turn the old cell into the new one. */
  lemma EditsTurn(before: Items, after: Items, file: string, k: NodePath)
    ensures RunCell(Get(before, k), Effects(PrefixAll(EditsFor(before, after, k), file))) == Some(Get(after, k))
  {
    var edits := EditsFor(before, after, k);
    if |edits| == 1 {
      OnePrefixed(edits, file);
      OneEffect(PrefixAtom(edits[0], file), Get(before, k));
    } else if |edits| == 2 {
      assert edits[1..] == [edits[1]] && edits[1..][1..] == [];
      assert PrefixAll(edits, file) == [PrefixAtom(edits[0], file), PrefixAtom(edits[1], file)];
      TwoEffects(PrefixAtom(edits[0], file), PrefixAtom(edits[1], file), Get(before, k));
    }
  }

  lemma OnePrefixed(atoms: seq<Atom>, file: string)
    requires |atoms| == 1
    ensures PrefixAll(atoms, file) == [PrefixAtom(atoms[0], file)]
  {
    assert atoms[1..] == [] && PrefixAll(atoms[1..], file) == [];
  }

  lemma OneEffect(a: Atom, c: Option<Bytes>)
    ensures RunCell(c, Effects([a])) == ApplyCell(c, Effect(a))
  {
    assert [a][1..] == [] && Effects([a]) == [Effect(a)] && [Effect(a)][1..] == [];
    match ApplyCell(c, Effect(a))
    case None =>
    case Some(d) => assert RunCell(d, []) == Some(d);
  }

  lemma TwoEffects(a: Atom, b: Atom, c: Option<Bytes>)
    ensures RunCell(c, Effects([a, b]))
         == match ApplyCell(c, Effect(a)) case None => None case Some(d) => ApplyCell(d, Effect(b))
  {
    assert [a, b][1..] == [b];
    var ws := Effects([a, b]);
    assert ws == [Effect(a)] + Effects([b]) && ws[1..] == Effects([b]);
    match ApplyCell(c, Effect(a))
    case None =>
    case Some(d) => OneEffect(b, d);
  }

  /**
   The diff replays to its target: on a state whose items under the file are the old ones the prefixed
   atoms succeed, make the items the new ones, and change no other key.
   */
  lemma DiffReplays(atoms: seq<Atom>, before: Items, after: Items, file: string, s: State)
    requires IsDiff(atoms, before, after) && SliceIs(s, file, before)
    ensures Run(s, Effects(PrefixAll(atoms, file))).Some?
    ensures var t := Run(s, Effects(PrefixAll(atoms, file))).value;
            && SliceIs(t, file, after)
            && forall key :: !Under(key, file) ==> Get(t, key) == Get(s, key)
  {
    hide Effects, PrefixAll, RunCell, Run, IsDiff, Under, Prepend;
    DiffIsPlain(atoms, before, after);
    PlainPrefixed(atoms, file);
    var cell := (key: NodePath) => DiffedCell(s, file, after, key);
    forall key ensures RunCell(Get(s, key), Effects(At(PrefixAll(atoms, file), key))) == Some(cell(key)) {
      DiffCell(atoms, before, after, file, s, key);
    }
    CellsDecide(s, PrefixAll(atoms, file), cell);
    forall k: NodePath ensures Get(Run(s, Effects(PrefixAll(atoms, file))).value, Prepend(file, k)) == Get(after, k) {
      UnderIsPrepend([], file);
      assert cell(Prepend(file, k)) == Get(after, k);
    }
    forall key | !Under(key, file) ensures Get(Run(s, Effects(PrefixAll(atoms, file))).value, key) == Get(s, key) {
      assert cell(key) == Get(s, key);
    }
  }

  /** What the diff makes of a key. */
  function DiffedCell(s: State, file: string, after: Items, key: NodePath): Option<Bytes> {
    if Under(key, file) then Get(after, key[2..]) else Get(s, key)
  }

  lemma DiffCell(atoms: seq<Atom>, before: Items, after: Items, file: string, s: State, key: NodePath)
    requires IsDiff(atoms, before, after) && SliceIs(s, file, before)
    ensures RunCell(Get(s, key), Effects(At(PrefixAll(atoms, file), key))) == Some(DiffedCell(s, file, after, key))
  {
    AtPrefixed(atoms, file, key);
    if Under(key, file) {
      UnderIsPrepend(key, file);
      assert Get(s, Prepend(file, key[2..])) == Get(before, key[2..]);
      EditsTurn(before, after, file, key[2..]);
    } else {
      assert Effects([]) == [];
    }
  }
}
