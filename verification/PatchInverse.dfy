/** Inverting changes (`crates/arc-algebra/src/inverse.rs`) and when the inverse undoes a change. */
module PatchInverse {
  import opened Base
  import opened Cells
  import opened PatchAlgebra

  datatype InvertError = CasMissing(hash: Id) | Unsupported

  datatype Inverted<T> = Ok(value: T) | Err(error: InvertError)

  function InvertAtom(a: Atom, blobs: map<Id, Bytes>): Inverted<Atom> {
    match a
    case Insert(at, h) => if h in blobs then Ok(Delete(at, h)) else Err(CasMissing(h))
    case Delete(at, h) => if h in blobs then Ok(Insert(at, h)) else Err(CasMissing(h))
    case Move(from, to) => Ok(Move(to, from))
    case _ => Err(Unsupported)
  }

  /** Which atoms have an inverse, what it is, and why others have none. */
  lemma InvertAtomIs(a: Atom, blobs: map<Id, Bytes>)
    ensures InvertAtom(a, blobs).Ok?
       <==> a.Move? || (a.Insert? && a.contentHash in blobs) || (a.Delete? && a.priorHash in blobs)
    ensures a.Insert? ==>
              InvertAtom(a, blobs) == if a.contentHash in blobs then Ok(Delete(a.at, a.contentHash))
                                      else Err(CasMissing(a.contentHash))
    ensures a.Delete? ==>
              InvertAtom(a, blobs) == if a.priorHash in blobs then Ok(Insert(a.at, a.priorHash))
                                      else Err(CasMissing(a.priorHash))
    ensures a.Move? ==> InvertAtom(a, blobs) == Ok(Move(a.to, a.from))
    ensures !a.Insert? && !a.Delete? && !a.Move? ==> InvertAtom(a, blobs) == Err(Unsupported)
  {}

  /** The inverse lists the inverted atoms from the last to the first; it fails with the last atom that has none. */
  lemma {:induction false} InvertAtomsIs(atoms: seq<Atom>, blobs: map<Id, Bytes>)
    ensures InvertAtoms(atoms, blobs).Ok? <==> forall i :: 0 <= i < |atoms| ==> InvertAtom(atoms[i], blobs).Ok?
    ensures InvertAtoms(atoms, blobs).Ok? ==>
              && |InvertAtoms(atoms, blobs).value| == |atoms|
              && forall i :: 0 <= i < |atoms| ==>
                   InvertAtom(atoms[i], blobs) == Ok(InvertAtoms(atoms, blobs).value[|atoms| - 1 - i])
    ensures InvertAtoms(atoms, blobs).Err? ==>
              exists i :: 0 <= i < |atoms| && InvertAtom(atoms[i], blobs) == Err(InvertAtoms(atoms, blobs).error)
                       && forall j :: i < j < |atoms| ==> InvertAtom(atoms[j], blobs).Ok?
  {
    hide InvertAtom;
    if atoms != [] {
      var init, last := atoms[..|atoms| - 1], |atoms| - 1;
      InvertAtomsIs(init, blobs);
      assert forall i :: 0 <= i < last ==> init[i] == atoms[i];
      if InvertAtom(atoms[last], blobs).Ok? && InvertAtoms(init, blobs).Err? {
        var i :| 0 <= i < |init| && InvertAtom(init[i], blobs) == Err(InvertAtoms(init, blobs).error)
              && forall j :: i < j < |init| ==> InvertAtom(init[j], blobs).Ok?;
        assert InvertAtom(atoms[i], blobs) == Err(InvertAtoms(atoms, blobs).error);
      }
    }
  }

  /** The inverted atoms in reverse order; the error is that of the last atom that cannot be inverted. */
  function InvertAtoms(atoms: seq<Atom>, blobs: map<Id, Bytes>): Inverted<seq<Atom>> {
    if atoms == [] then Ok([]) else
      match InvertAtom(atoms[|atoms| - 1], blobs)
      case Err(e) => Err(e)
      case Ok(a) =>
        match InvertAtoms(atoms[..|atoms| - 1], blobs)
        case Err(e) => Err(e)
        case Ok(rest) => Ok([a] + rest)
  }

  /** A change that reverts `c`, on top of it, under the signer's identity. */
  method InvertChange(c: Change, blobs: map<Id, Bytes>, signer: Author,
                      hash: (set<Id>, seq<Atom>, string, Author) -> Id)
    returns (r: Inverted<Change>)
    ensures match InvertAtoms(c.atoms, blobs)
            case Err(e) => r == Err(e)
            case Ok(atoms) =>
              && r.Ok? && r.value.atoms == atoms && r.value.deps == {c.id} && r.value.author == signer
              && r.value.intent == "Revert: " + c.intent
              && r.value.id == hash({c.id}, atoms, r.value.intent, signer)
  {
    var inverted := [];
    var i := |c.atoms|;
    InvertStart(c.atoms, blobs);
    while i > 0
      invariant 0 <= i <= |c.atoms| && Inverting(c.atoms, blobs, i, inverted)
    {
      i := i - 1;
      InvertStep(c.atoms, blobs, i, inverted);
      var one := InvertAtom(c.atoms[i], blobs);
      if one.Err? {
        return Err(one.error);
      }
      inverted := inverted + [one.value];
    }
    assert inverted + [] == inverted;
    var intent := "Revert: " + c.intent;
    return Ok(Change(hash({c.id}, inverted, intent, signer), {c.id}, inverted, intent, signer));
  }

  /** The atoms from `i` on are inverted. */
  ghost predicate Inverting(atoms: seq<Atom>, blobs: map<Id, Bytes>, i: nat, inverted: seq<Atom>)
    requires i <= |atoms|
  {
    InvertAtoms(atoms, blobs)
    == match InvertAtoms(atoms[..i], blobs) case Err(e) => Err(e) case Ok(rest) => Ok(inverted + rest)
  }

  lemma InvertStart(atoms: seq<Atom>, blobs: map<Id, Bytes>)
    ensures Inverting(atoms, blobs, |atoms|, [])
  {
    assert atoms[..|atoms|] == atoms;
    var all := InvertAtoms(atoms, blobs);
    assert all.Ok? ==> [] + all.value == all.value;
  }

  lemma InvertStep(atoms: seq<Atom>, blobs: map<Id, Bytes>, i: nat, inverted: seq<Atom>)
    requires i < |atoms| && Inverting(atoms, blobs, i + 1, inverted)
    ensures InvertAtom(atoms[i], blobs).Err? ==> InvertAtoms(atoms, blobs) == Err(InvertAtom(atoms[i], blobs).error)
    ensures InvertAtom(atoms[i], blobs).Ok? ==>
              Inverting(atoms, blobs, i, inverted + [InvertAtom(atoms[i], blobs).value])
  {
    assert atoms[..i + 1][..i] == atoms[..i];
    var one, rest := InvertAtom(atoms[i], blobs), InvertAtoms(atoms[..i], blobs);
    assert one.Ok? && rest.Ok? ==> inverted + ([one.value] + rest.value) == (inverted + [one.value]) + rest.value;
  }

  lemma {:induction false} InvertConcat(a: seq<Atom>, b: seq<Atom>, blobs: map<Id, Bytes>)
    requires InvertAtoms(a, blobs).Ok? && InvertAtoms(b, blobs).Ok?
    ensures InvertAtoms(a + b, blobs) == Ok(InvertAtoms(b, blobs).value + InvertAtoms(a, blobs).value)
  {
    if b == [] {
      assert a + b == a && [] + InvertAtoms(a, blobs).value == InvertAtoms(a, blobs).value;
    } else {
      assert (a + b)[..|a + b| - 1] == a + b[..|b| - 1];
      InvertConcat(a, b[..|b| - 1], blobs);
      var x, y := InvertAtom(b[|b| - 1], blobs).value, InvertAtoms(b[..|b| - 1], blobs).value;
      var z := InvertAtoms(a, blobs).value;
      assert [x] + (y + z) == ([x] + y) + z;
    }
  }

  /** Inverting twice gives the atoms back. */
  lemma {:induction false} InvertTwice(atoms: seq<Atom>, blobs: map<Id, Bytes>)
    requires InvertAtoms(atoms, blobs).Ok?
    ensures InvertAtoms(InvertAtoms(atoms, blobs).value, blobs) == Ok(atoms)
  {
    if atoms != [] {
      var init, last := atoms[..|atoms| - 1], atoms[|atoms| - 1];
      var inv := InvertAtom(last, blobs).value;
      InvertTwice(init, blobs);
      assert InvertAtoms([inv], blobs) == Ok([last]) by {
        assert [inv][..0] == [] && [last] + [] == [last];
        assert InvertAtom(inv, blobs) == Ok(last);
      }
      InvertConcat([inv], InvertAtoms(init, blobs).value, blobs);
      assert atoms == init + [last];
    }
  }

  // ---- when the inverse restores the state ---------------------------------

  predicate Edit(a: Atom, blobs: map<Id, Bytes>) {
    match a
    case Insert(_, h) => h in blobs
    case Delete(_, h) => h in blobs
    case _ => false
  }

  ghost predicate Edits(atoms: seq<Atom>, env: Env) {
    forall a :: a in atoms ==> Edit(a, env.blobs)
  }

  /** What the atoms write, and what their inverses write in reverse, the gate aside. */
  ghost function Forward(atoms: seq<Atom>, env: Env): seq<Write<Bytes>> {
    if atoms == [] then [] else Forward(atoms[..|atoms| - 1], env) + [Effect(atoms[|atoms| - 1], env)]
  }

  ghost function Backward(atoms: seq<Atom>, env: Env): seq<Write<Bytes>>
    requires Edits(atoms, env)
  {
    if atoms == [] then [] else
      assert atoms[|atoms| - 1] in atoms;
      [Effect(InvertAtom(atoms[|atoms| - 1], env.blobs).value, env)] + Backward(atoms[..|atoms| - 1], env)
  }

  /** The atoms at one path. */
  ghost function EditsAt(atoms: seq<Atom>, k: NodePath): seq<Atom> {
    if atoms == [] then [] else
      var last := atoms[|atoms| - 1];
      EditsAt(atoms[..|atoms| - 1], k) + if (last.Insert? || last.Delete?) && last.at == k then [last] else []
  }

  /**
   Every insert hits an absent path, and the first atom at a path, if it is a delete, names the
   content that was there.
   */
  ghost predicate Reversible(s: State, atoms: seq<Atom>, env: Env)
    requires Edits(atoms, env) && Run(s, Forward(atoms, env)).Some?
  {
    if atoms == [] then true else
      var init, last := atoms[..|atoms| - 1], atoms[|atoms| - 1];
      RunConcat(s, Forward(init, env), [Effect(last, env)]);
      assert last in atoms;
      && Reversible(s, init, env)
      && if last.Insert? then last.at !in Run(s, Forward(init, env)).value
         else EditsAt(init, last.at) == [] ==> Get(s, last.at) == Some(env.blobs[last.priorHash])
  }

  /** The same condition seen at one path, from the cell `c` before the first atom. */
  ghost predicate CellReversible(c: Option<Bytes>, edits: seq<Atom>, env: Env)
    requires Edits(edits, env)
  {
    if edits == [] then true else
      var init, last := edits[..|edits| - 1], edits[|edits| - 1];
      assert last in edits;
      && CellReversible(c, init, env)
      && if last.Insert? then RunCell(c, Forward(init, env)) == Some(None)
         else init == [] ==> c == Some(env.blobs[last.priorHash])
  }

  lemma {:induction false} EditsAtMembers(atoms: seq<Atom>, k: NodePath)
    ensures forall a :: a in EditsAt(atoms, k) ==> a in atoms && (a.Insert? || a.Delete?) && a.at == k
  {
    if atoms != [] {
      EditsAtMembers(atoms[..|atoms| - 1], k);
    }
  }

  lemma {:induction false} ProjForward(atoms: seq<Atom>, env: Env, k: NodePath)
    requires Edits(atoms, env)
    ensures Proj(Forward(atoms, env), k) == Forward(EditsAt(atoms, k), env)
  {
    if atoms != [] {
      var init, last := atoms[..|atoms| - 1], atoms[|atoms| - 1];
      assert last in atoms;
      ProjForward(init, env, k);
      ProjConcat(Forward(init, env), [Effect(last, env)], k);
      ProjSingle(Effect(last, env), k);
      var at := EditsAt(atoms, k);
      if last.at == k {
        assert at[..|at| - 1] == EditsAt(init, k) && at[|at| - 1] == last;
      } else {
        assert at == EditsAt(init, k);
      }
    }
  }

  lemma ProjSingle<V>(w: Write<V>, k: NodePath)
    ensures Proj([w], k) == if On(w, k) then [w] else []
  {
    assert [w][1..] == [];
  }

  lemma {:induction false} ProjBackward(atoms: seq<Atom>, env: Env, k: NodePath)
    requires Edits(atoms, env)
    ensures Edits(EditsAt(atoms, k), env) && Proj(Backward(atoms, env), k) == Backward(EditsAt(atoms, k), env)
  {
    EditsAtMembers(atoms, k);
    if atoms != [] {
      var init, last := atoms[..|atoms| - 1], atoms[|atoms| - 1];
      assert last in atoms;
      ProjBackward(init, env, k);
      var w := Effect(InvertAtom(last, env.blobs).value, env);
      ProjConcat([w], Backward(init, env), k);
      ProjSingle(w, k);
      var at := EditsAt(atoms, k);
      if last.at == k {
        assert at[..|at| - 1] == EditsAt(init, k) && at[|at| - 1] == last;
      } else {
        assert at == EditsAt(init, k);
      }
    }
  }

  lemma CellSnoc(c: Option<Bytes>, ws: seq<Write<Bytes>>, w: Write<Bytes>)
    ensures RunCell(c, ws + [w]) == match RunCell(c, ws) case None => None case Some(c') => ApplyCell(c', w)
  {
    RunCellConcat(c, ws, [w]);
    match RunCell(c, ws)
    case None =>
    case Some(c') =>
      assert [w][1..] == [];
      match ApplyCell(c', w)
      case None =>
      case Some(c'') => assert RunCell(c'', []) == Some(c'');
  }

  /** After edits that ran, the cell is live exactly when the last one was an insert. */
  lemma LastDecides(c: Option<Bytes>, edits: seq<Atom>, env: Env)
    requires Edits(edits, env) && edits != [] && RunCell(c, Forward(edits, env)).Some?
    ensures RunCell(c, Forward(edits[..|edits| - 1], env)).Some?
    ensures RunCell(c, Forward(edits, env)).value.Some? <==> edits[|edits| - 1].Insert?
    ensures edits[|edits| - 1].Delete? ==> RunCell(c, Forward(edits[..|edits| - 1], env)).value.Some?
  {
    var last := edits[|edits| - 1];
    assert last in edits;
    CellSnoc(c, Forward(edits[..|edits| - 1], env), Effect(last, env));
  }

  /**
   Undoing one path from a cell `d` that is live exactly when the edits leave it live: the original
   cell comes back exactly when the edits are reversible there.
   */
  lemma {:induction false} UndoCell(c: Option<Bytes>, edits: seq<Atom>, env: Env, d: Option<Bytes>)
    requires Edits(edits, env) && RunCell(c, Forward(edits, env)).Some?
    requires d.Some? <==> RunCell(c, Forward(edits, env)).value.Some?
    ensures RunCell(d, Backward(edits, env)) == Some(c) <==> CellReversible(c, edits, env) && (edits == [] ==> d == c)
  {
    if edits != [] {
      var init, last := edits[..|edits| - 1], edits[|edits| - 1];
      assert last in edits;
      LastDecides(c, edits, env);
      var mid := RunCell(c, Forward(init, env)).value;
      var inv := Effect(InvertAtom(last, env.blobs).value, env);
      var back := Backward(edits, env);
      assert back[0] == inv && back[1..] == Backward(init, env);
      if last.Delete? {
        UndoCell(c, init, env, Some(env.blobs[last.priorHash]));
      } else if mid == None {
        UndoCell(c, init, env, None);
      } else if init != [] {
        LastDecides(c, init, env);
        var back' := Backward(init, env);
        assert init[|init| - 1] in init;
        assert back'[0].Remove?;
      }
    }
  }

  /** The condition over the whole state is the condition at every path. */
  lemma {:induction false} ReversibleCells(s: State, atoms: seq<Atom>, env: Env)
    requires Edits(atoms, env) && Run(s, Forward(atoms, env)).Some?
    ensures forall k :: Edits(EditsAt(atoms, k), env)
    ensures Reversible(s, atoms, env) <==> forall k :: CellReversible(Get(s, k), EditsAt(atoms, k), env)
  {
    forall k ensures Edits(EditsAt(atoms, k), env) {
      ProjBackward(atoms, env, k);
    }
    if atoms != [] {
      var init, last := atoms[..|atoms| - 1], atoms[|atoms| - 1];
      assert last in atoms;
      RunConcat(s, Forward(init, env), [Effect(last, env)]);
      ReversibleCells(s, init, env);
      var k0 := last.at;
      RunAt(s, Forward(init, env), k0);
      ProjForward(init, env, k0);
      var at := EditsAt(atoms, k0);
      assert at[..|at| - 1] == EditsAt(init, k0) && at[|at| - 1] == last;
      forall k | k != k0 ensures EditsAt(atoms, k) == EditsAt(init, k) {}
      assert CellReversible(Get(s, k0), at, env)
        <==> CellReversible(Get(s, k0), EditsAt(init, k0), env)
             && if last.Insert? then k0 !in Run(s, Forward(init, env)).value
                else EditsAt(init, k0) == [] ==> Get(s, k0) == Some(env.blobs[last.priorHash]);
    }
  }

  lemma {:induction false} BackwardNoFail(atoms: seq<Atom>, env: Env)
    requires Edits(atoms, env)
    ensures NoFail(Backward(atoms, env))
  {
    if atoms != [] {
      assert atoms[|atoms| - 1] in atoms;
      BackwardNoFail(atoms[..|atoms| - 1], env);
    }
  }

  /**
   The inverse law, exactly: after a run of inserts and deletes whose blobs are stored, running the
   inverse restores the state if and only if the change was reversible on that state.
   */
  lemma InverseRestores(s: State, atoms: seq<Atom>, env: Env)
    requires Edits(atoms, env) && Run(s, Forward(atoms, env)).Some?
    ensures Run(Run(s, Forward(atoms, env)).value, Backward(atoms, env)) == Some(s) <==> Reversible(s, atoms, env)
  {
    var t, back := Run(s, Forward(atoms, env)).value, Backward(atoms, env);
    ReversibleCells(s, atoms, env);
    BackwardNoFail(atoms, env);
    forall k
      ensures RunCell(Get(t, k), Proj(back, k)) == Some(Get(s, k))
         <==> CellReversible(Get(s, k), EditsAt(atoms, k), env)
    {
      RunAt(s, Forward(atoms, env), k);
      ProjForward(atoms, env, k);
      ProjBackward(atoms, env, k);
      UndoCell(Get(s, k), EditsAt(atoms, k), env, Get(t, k));
    }
    if Reversible(s, atoms, env) {
      RunSucceeds(t, back);
      forall k ensures Get(Run(t, back).value, k) == Get(s, k) {
        RunAt(t, back, k);
      }
      SameMap(Run(t, back).value, s);
    }
    if Run(t, back) == Some(s) {
      forall k ensures CellReversible(Get(s, k), EditsAt(atoms, k), env) {
        RunAt(t, back, k);
      }
    }
  }

  // ---- the law for changes -------------------------------------------------

  lemma {:induction false} ForwardIsWrites(author: Author, atoms: seq<Atom>, env: Env)
    requires forall a :: a in atoms ==> !Blocked(author, a, env)
    ensures Forward(atoms, env) == WritesOf(author, atoms, env)
  {
    if atoms != [] {
      var init, last := atoms[..|atoms| - 1], atoms[|atoms| - 1];
      assert last in atoms && atoms == init + [last];
      ForwardIsWrites(author, init, env);
      WritesSnoc(author, init, last, env);
    }
  }

  lemma {:induction false} BackwardIsInverse(atoms: seq<Atom>, env: Env)
    requires Edits(atoms, env)
    ensures InvertAtoms(atoms, env.blobs).Ok?
    ensures Forward(InvertAtoms(atoms, env.blobs).value, env) == Backward(atoms, env)
  {
    if atoms != [] {
      var init, last := atoms[..|atoms| - 1], atoms[|atoms| - 1];
      assert last in atoms;
      BackwardIsInverse(init, env);
      ForwardCons(InvertAtom(last, env.blobs).value, InvertAtoms(init, env.blobs).value, env);
    }
  }

  lemma {:induction false} ForwardCons(a: Atom, rest: seq<Atom>, env: Env)
    ensures Forward([a] + rest, env) == [Effect(a, env)] + Forward(rest, env)
  {
    if rest == [] {
      assert [a] + rest == [a] && [a][..0] == [];
    } else {
      assert ([a] + rest)[..|rest|] == [a] + rest[..|rest| - 1];
      ForwardCons(a, rest[..|rest| - 1], env);
    }
  }

  lemma {:induction false} EditsFromRun(author: Author, atoms: seq<Atom>, env: Env, s: State)
    requires Run(s, WritesOf(author, atoms, env)).Some?
    ensures forall a :: a in atoms ==> !Blocked(author, a, env)
  {
    RunSucceeds(s, WritesOf(author, atoms, env));
    forall a | a in atoms ensures !Blocked(author, a, env) {
      var i :| 0 <= i < |atoms| && atoms[i] == a;
      assert !WritesOf(author, atoms, env)[i].Fail?;
    }
  }

  /**
   Applying a change of inserts and deletes and then its inverse, whose signer passes the gate,
   restores the state if and only if the change was reversible on that state.
   */
  lemma InverseLaw(c: Change, inverse: Change, env: Env, s: State)
    requires Edits(c.atoms, env) && InvertAtoms(c.atoms, env.blobs) == Ok(inverse.atoms)
    requires forall a :: a in inverse.atoms ==> !Blocked(inverse.author, a, env)
    requires Run(s, Writes(c, env)).Some?
    ensures Forward(c.atoms, env) == Writes(c, env)
    ensures Run(Run(s, Writes(c, env)).value, Writes(inverse, env)) == Some(s) <==> Reversible(s, c.atoms, env)
  {
    EditsFromRun(c.author, c.atoms, env, s);
    ForwardIsWrites(c.author, c.atoms, env);
    ForwardIsWrites(inverse.author, inverse.atoms, env);
    BackwardIsInverse(c.atoms, env);
    InverseRestores(s, c.atoms, env);
  }
}
