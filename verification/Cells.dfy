/**
 A replay seen one key at a time. Every atom that can succeed reads and writes a single key of the
 state map, so a list of writes is decided by what it does to each key on its own.
 */
module Cells {
  import opened Base

  /** One write: store, remove (an error on an absent key), remove if there, store unless present, or an error. */
  datatype Write<V> =
    | Put(key: NodePath, val: V)
    | Remove(key: NodePath)
    | Drop(key: NodePath)
    | Ensure(key: NodePath, val: V)
    | Fail

  /** The effect of one write on the map; `None` is an error. */
  function Apply<V>(m: map<NodePath, V>, w: Write<V>): Option<map<NodePath, V>> {
    match w
    case Put(k, v) => Some(m[k := v])
    case Remove(k) => if k in m then Some(m - {k}) else None
    case Drop(k) => Some(m - {k})
    case Ensure(k, v) => Some(if k in m then m else m[k := v])
    case Fail => None
  }

  /** The writes in order, stopping at the first error. */
  function Run<V>(m: map<NodePath, V>, ws: seq<Write<V>>): Option<map<NodePath, V>>
    decreases |ws|
  {
    if ws == [] then Some(m) else
      match Apply(m, ws[0])
      case None => None
      case Some(m') => Run(m', ws[1..])
  }

  predicate On<V>(w: Write<V>, k: NodePath) {
    !w.Fail? && w.key == k
  }

  /** The writes that concern one key. */
  function Proj<V>(ws: seq<Write<V>>, k: NodePath): seq<Write<V>> {
    if ws == [] then [] else (if On(ws[0], k) then [ws[0]] else []) + Proj(ws[1..], k)
  }

  /** The effect of one write on its own key. */
  function ApplyCell<V>(c: Option<V>, w: Write<V>): Option<Option<V>> {
    match w
    case Put(_, v) => Some(Some(v))
    case Remove(_) => if c.Some? then Some(None) else None
    case Drop(_) => Some(None)
    case Ensure(_, v) => Some(if c.Some? then c else Some(v))
    case Fail => None
  }

  function RunCell<V>(c: Option<V>, ws: seq<Write<V>>): Option<Option<V>>
    decreases |ws|
  {
    if ws == [] then Some(c) else
      match ApplyCell(c, ws[0])
      case None => None
      case Some(c') => RunCell(c', ws[1..])
  }

  ghost predicate NoFail<V>(ws: seq<Write<V>>) {
    forall i :: 0 <= i < |ws| ==> !ws[i].Fail?
  }

  // ---- sequencing ----------------------------------------------------------

  lemma {:induction false} RunConcat<V>(m: map<NodePath, V>, a: seq<Write<V>>, b: seq<Write<V>>)
    ensures Run(m, a + b) == match Run(m, a) case None => None case Some(m') => Run(m', b)
    decreases |a|
  {
    if a == [] {
      assert a + b == b;
    } else {
      assert (a + b)[0] == a[0] && (a + b)[1..] == a[1..] + b;
      match Apply(m, a[0])
      case None =>
      case Some(m') => RunConcat(m', a[1..], b);
    }
  }

  lemma {:induction false} RunCellConcat<V>(c: Option<V>, a: seq<Write<V>>, b: seq<Write<V>>)
    ensures RunCell(c, a + b) == match RunCell(c, a) case None => None case Some(c') => RunCell(c', b)
    decreases |a|
  {
    if a == [] {
      assert a + b == b;
    } else {
      assert (a + b)[0] == a[0] && (a + b)[1..] == a[1..] + b;
      match ApplyCell(c, a[0])
      case None =>
      case Some(c') => RunCellConcat(c', a[1..], b);
    }
  }

  lemma {:induction false} ProjConcat<V>(a: seq<Write<V>>, b: seq<Write<V>>, k: NodePath)
    ensures Proj(a + b, k) == Proj(a, k) + Proj(b, k)
  {
    if a == [] {
      assert a + b == b;
    } else {
      assert (a + b)[0] == a[0] && (a + b)[1..] == a[1..] + b;
      ProjConcat(a[1..], b, k);
      var head := if On(a[0], k) then [a[0]] else [];
      assert Proj(a + b, k) == head + Proj(a[1..] + b, k) && Proj(a, k) == head + Proj(a[1..], k);
      hide Proj, On;
      assert head + Proj(a[1..], k) + Proj(b, k) == head + (Proj(a[1..], k) + Proj(b, k));
    }
  }

  lemma {:induction false} ProjMembers<V>(ws: seq<Write<V>>, k: NodePath, w: Write<V>)
    ensures w in Proj(ws, k) <==> w in ws && On(w, k)
  {
    if ws != [] {
      ProjMembers(ws[1..], k, w);
      assert w in ws <==> w == ws[0] || w in ws[1..];
    }
  }

  // ---- a run is decided key by key -----------------------------------------

  /** A run succeeds exactly when it has no error write and every key's own writes succeed. */
  lemma {:induction false} RunSucceeds<V(!new)>(m: map<NodePath, V>, ws: seq<Write<V>>)
    ensures Run(m, ws).Some? <==> NoFail(ws) && forall k :: RunCell(Get(m, k), Proj(ws, k)).Some?
    decreases |ws|
  {
    if ws != [] {
      var w := ws[0];
      match Apply(m, w)
      case None =>
        if !w.Fail? {
          assert RunCell(Get(m, w.key), Proj(ws, w.key)).None?;
        }
      case Some(m') =>
        RunSucceeds(m', ws[1..]);
        forall k ensures RunCell(Get(m, k), Proj(ws, k)) == RunCell(Get(m', k), Proj(ws[1..], k)) {
          CellStep(m, m', ws, k);
        }
        assert NoFail(ws) <==> NoFail(ws[1..]) by {
          assert forall i :: 0 < i < |ws| ==> ws[i] == ws[1..][i - 1];
        }
    }
  }

  lemma CellStep<V>(m: map<NodePath, V>, m': map<NodePath, V>, ws: seq<Write<V>>, k: NodePath)
    requires ws != [] && Apply(m, ws[0]) == Some(m')
    ensures RunCell(Get(m, k), Proj(ws, k)) == RunCell(Get(m', k), Proj(ws[1..], k))
  {
    OneWriteCell(m, m', ws[0], k);
    if On(ws[0], k) {
      assert Proj(ws, k)[0] == ws[0] && Proj(ws, k)[1..] == Proj(ws[1..], k);
    } else {
      assert Proj(ws, k) == Proj(ws[1..], k);
    }
    hide Apply, ApplyCell, Proj, On, Get;
  }

  lemma OneWriteCell<V>(m: map<NodePath, V>, m': map<NodePath, V>, w: Write<V>, k: NodePath)
    requires Apply(m, w) == Some(m')
    ensures if On(w, k) then ApplyCell(Get(m, k), w) == Some(Get(m', k)) else Get(m, k) == Get(m', k)
  {
  }

  /** Where a run succeeds, each key ends as its own writes leave it. */
  lemma {:induction false} RunAt<V>(m: map<NodePath, V>, ws: seq<Write<V>>, k: NodePath)
    requires Run(m, ws).Some?
    ensures RunCell(Get(m, k), Proj(ws, k)) == Some(Get(Run(m, ws).value, k))
    decreases |ws|
  {
    if ws != [] {
      var m' := Apply(m, ws[0]).value;
      CellStep(m, m', ws, k);
      RunAt(m', ws[1..], k);
    }
  }

  lemma SameMap<V>(a: map<NodePath, V>, b: map<NodePath, V>)
    requires forall k :: Get(a, k) == Get(b, k)
    ensures a == b
  {
    forall k ensures k in a <==> k in b {
      assert Get(a, k) == Get(b, k);
    }
    forall k | k in a ensures a[k] == b[k] {
      assert Get(a, k) == Get(b, k);
    }
  }

  /** Two runs whose cells agree at every key give the same result, success or error. */
  lemma SameCells<V(!new)>(m: map<NodePath, V>, a: seq<Write<V>>, b: seq<Write<V>>)
    requires NoFail(a) <==> NoFail(b)
    requires forall k :: RunCell(Get(m, k), Proj(a, k)) == RunCell(Get(m, k), Proj(b, k))
    ensures Run(m, a) == Run(m, b)
  {
    RunSucceeds(m, a);
    RunSucceeds(m, b);
    if Run(m, a).Some? {
      forall k ensures Get(Run(m, a).value, k) == Get(Run(m, b).value, k) {
        RunAt(m, a, k);
        RunAt(m, b, k);
      }
      SameMap(Run(m, a).value, Run(m, b).value);
    }
  }
}
