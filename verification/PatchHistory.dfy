/**
 Histories of the eight-atom algebra, whose merges ask its `commutes` for every pair of two deltas
 (`crates/arc-cli/src/repo/merge.rs`). Unrelated changes may write one key here, as long as they write the
 same blob token, so a key's writers need not form a chain. Two orders are compared by moving changes past
 each other instead.
 */
module PatchHistory {
  import opened Base
  import opened Reach
  import opened Kahn
  import opened Cells
  import opened PatchAlgebra
  import H = History

  type Store = map<Id, Change>

  function EdgesOf(store: Store): Edges {
    map i | i in store :: store[i].deps
  }

  /** All of `s` is in the store, and with each change its dependencies are in `s`. */
  ghost predicate Complete(store: Store, s: set<Id>) {
    s <= store.Keys && Closed(EdgesOf(store), s)
  }

  /** Causally unrelated members commute. */
  ghost predicate ConflictFree(store: Store, s: set<Id>)
    requires s <= store.Keys
  {
    forall a, b :: a in s && b in s && a != b && !Related(EdgesOf(store), a, b) ==> Commutes(store[a], store[b])
  }

  ghost function WritesIn(store: Store, env: Env): Id -> seq<Write<Bytes>> {
    (i: Id) => if i in store then Writes(store[i], env) else []
  }

  ghost function Replay(store: Store, order: seq<Id>, env: Env): Option<State> {
    Run(map[], H.Flat(WritesIn(store, env), order))
  }

  /** The state a set of changes materialises to, in the order Kahn's algorithm picks. */
  ghost function Materialized(store: Store, s: set<Id>, env: Env): Option<State> {
    Replay(store, KahnOrder(EdgesOf(store), s), env)
  }

  // ---- moving changes past each other --------------------------------------

  ghost predicate Before<T>(s: seq<T>, x: T, y: T) {
    exists i, j :: 0 <= i < j < |s| && s[i] == x && s[j] == y
  }

  /** At this key the two ids' writes can change places. */
  ghost predicate Swap<V(!new)>(f: Id -> seq<Write<V>>, x: Id, y: Id, k: NodePath) {
    forall c :: RunCell(c, Proj(f(x), k) + Proj(f(y), k)) == RunCell(c, Proj(f(y), k) + Proj(f(x), k))
  }

  lemma {:induction false} FlatConcat<V>(f: Id -> seq<Write<V>>, a: seq<Id>, b: seq<Id>)
    ensures H.Flat(f, a + b) == H.Flat(f, a) + H.Flat(f, b)
  {
    if b == [] {
      assert a + b == a;
    } else {
      var init := b[..|b| - 1];
      assert (a + b)[..|a + b| - 1] == a + init;
      FlatConcat(f, a, init);
    }
  }

  /** What an order does to one cell. */
  ghost function CellOf<V>(f: Id -> seq<Write<V>>, order: seq<Id>, k: NodePath, c: Option<V>): Option<Option<V>> {
    RunCell(c, Proj(H.Flat(f, order), k))
  }

  ghost function Then<V>(f: Id -> seq<Write<V>>, order: seq<Id>, k: NodePath, c: Option<Option<V>>): Option<Option<V>> {
    match c
    case None => None
    case Some(d) => CellOf(f, order, k, d)
  }

  lemma CellConcat<V>(f: Id -> seq<Write<V>>, a: seq<Id>, b: seq<Id>, k: NodePath, c: Option<V>)
    ensures CellOf(f, a + b, k, c) == Then(f, b, k, CellOf(f, a, k, c))
  {
    FlatConcat(f, a, b);
    ProjConcat(H.Flat(f, a), H.Flat(f, b), k);
    RunCellConcat(c, Proj(H.Flat(f, a), k), Proj(H.Flat(f, b), k));
  }

  lemma FlatOne<V>(f: Id -> seq<Write<V>>, x: Id)
    ensures H.Flat(f, [x]) == f(x)
  {
    assert [x][..0] == [] && H.Flat(f, []) == [];
  }

  lemma SwapTwo<V(!new)>(f: Id -> seq<Write<V>>, x: Id, y: Id, k: NodePath, c: Option<V>)
    requires Swap(f, x, y, k)
    ensures CellOf(f, [x] + [y], k, c) == CellOf(f, [y] + [x], k, c)
  {
    FlatConcat(f, [x], [y]);
    FlatConcat(f, [y], [x]);
    FlatOne(f, x);
    FlatOne(f, y);
    ProjConcat(f(x), f(y), k);
    ProjConcat(f(y), f(x), k);
  }

  /** A change that swaps with each of a list moves behind the list. */
  lemma {:induction false} MoveBack<V(!new)>(f: Id -> seq<Write<V>>, x: Id, ys: seq<Id>, k: NodePath, c: Option<V>)
    requires forall y :: y in ys ==> Swap(f, x, y, k)
    ensures CellOf(f, [x] + ys, k, c) == CellOf(f, ys + [x], k, c)
  {
    hide CellOf, Swap;
    if ys == [] {
      assert [x] + ys == ys + [x];
    } else {
      var init, last := ys[..|ys| - 1], ys[|ys| - 1];
      assert ys == init + [last] && last in ys;
      MoveBack(f, x, init, k, c);
      CellConcat(f, [x] + init, [last], k, c);
      assert [x] + init + [last] == [x] + ys;
      CellConcat(f, init + [x], [last], k, c);
      assert init + [x] + [last] == init + ([x] + [last]);
      CellConcat(f, init, [x] + [last], k, c);
      match CellOf(f, init, k, c) {
        case None =>
        case Some(d) => SwapTwo(f, x, last, k, d);
      }
      CellConcat(f, init, [last] + [x], k, c);
      assert init + ([last] + [x]) == ys + [x];
    }
  }

  lemma SwapSymmetric<V(!new)>(f: Id -> seq<Write<V>>, x: Id, y: Id, k: NodePath)
    requires Swap(f, x, y, k)
    ensures Swap(f, y, x, k)
  {}

  lemma BeforeLast<T>(a: seq<T>, y: T)
    requires NoDup(a) && a != [] && y in a && y != a[|a| - 1]
    ensures Before(a, y, a[|a| - 1])
  {
    var i :| 0 <= i < |a| && a[i] == y;
    assert a[|a| - 1] == a[|a| - 1];
  }

  lemma BeforeIn<T>(b1: seq<T>, x: T, b2: seq<T>, y: T)
    requires y in b2
    ensures Before(b1 + [x] + b2, x, y)
  {
    var b := b1 + [x] + b2;
    var j :| 0 <= j < |b2| && b2[j] == y;
    assert b[|b1|] == x && b[|b1| + 1 + j] == y;
  }

  lemma BeforeSkips<T>(b1: seq<T>, x: T, b2: seq<T>, y: T, z: T)
    requires Before(b1 + b2, y, z)
    ensures Before(b1 + [x] + b2, y, z)
  {
    var s, b := b1 + b2, b1 + [x] + b2;
    var i, j :| 0 <= i < j < |s| && s[i] == y && s[j] == z;
    var i', j' := if i < |b1| then i else i + 1, if j < |b1| then j else j + 1;
    assert b[i'] == y && b[j'] == z;
  }

  lemma BeforeInit<T>(a: seq<T>, y: T, z: T)
    requires a != [] && Before(a[..|a| - 1], y, z)
    ensures Before(a, y, z)
  {
    var s := a[..|a| - 1];
    var i, j :| 0 <= i < j < |s| && s[i] == y && s[j] == z;
    assert a[i] == y && a[j] == z;
  }

  lemma WithoutAt(s: seq<Id>, p: nat)
    requires NoDup(s) && p < |s|
    ensures NoDup(s[..p] + s[p + 1..]) && Elems(s[..p] + s[p + 1..]) == Elems(s) - {s[p]}
  {
    var t := s[..p] + s[p + 1..];
    assert forall i :: 0 <= i < |t| ==> t[i] == s[if i < p then i else i + 1];
    forall y ensures y in Elems(t) <==> y in Elems(s) && y != s[p] {
      if y in s && y != s[p] {
        var j :| 0 <= j < |s| && s[j] == y;
        assert t[if j < p then j else j - 1] == y;
      }
    }
  }

  lemma WithoutLast(a: seq<Id>, b: seq<Id>) returns (b1: seq<Id>, b2: seq<Id>)
    requires NoDup(a) && NoDup(b) && Elems(a) == Elems(b) && a != []
    ensures b == b1 + [a[|a| - 1]] + b2
    ensures NoDup(a[..|a| - 1]) && NoDup(b1 + b2) && Elems(a[..|a| - 1]) == Elems(b1 + b2)
    ensures forall y :: y in b2 ==> y in a && y != a[|a| - 1]
  {
    var n := |a| - 1;
    assert a[n] in Elems(a);
    var p :| 0 <= p < |b| && b[p] == a[n];
    b1, b2 := b[..p], b[p + 1..];
    assert a[..n] + a[n + 1..] == a[..n];
    WithoutAt(a, n);
    WithoutAt(b, p);
    assert forall y :: y in b2 ==> y in Elems(b1 + b2);
    assert forall y :: y in a <==> y in Elems(a);
  }

  lemma HasElems(s: seq<Id>)
    requires s != []
    ensures Elems(s) != {}
  {
    assert s[0] in Elems(s);
  }

  /**
   Two orders of the same ids leave the same cell when every two ids they list in opposite order can
   change places.
   */
  lemma {:induction false} SameCell<V(!new)>(f: Id -> seq<Write<V>>, a: seq<Id>, b: seq<Id>, k: NodePath, c: Option<V>)
    requires NoDup(a) && NoDup(b) && Elems(a) == Elems(b)
    requires forall x, y :: Before(a, x, y) && Before(b, y, x) ==> Swap(f, x, y, k)
    ensures CellOf(f, a, k, c) == CellOf(f, b, k, c)
  {
    hide CellOf, Swap, Before;
    if a == [] {
      if b != [] {
        HasElems(b);
      }
    } else {
      var x, init := a[|a| - 1], a[..|a| - 1];
      var b1, b2 := WithoutLast(a, b);
      forall y | y in b2 ensures Swap(f, x, y, k) {
        BeforeLast(a, y);
        BeforeIn(b1, x, b2, y);
        SwapSymmetric(f, y, x, k);
      }
      forall y, z | Before(init, y, z) && Before(b1 + b2, z, y) ensures Swap(f, y, z, k) {
        BeforeInit(a, y, z);
        BeforeSkips(b1, x, b2, z, y);
      }
      SameCell(f, init, b1 + b2, k, c);
      MoveToEnd(f, b1, x, b2, k, c);
      CellConcat(f, init, [x], k, c);
      CellConcat(f, b1 + b2, [x], k, c);
      assert a == init + [x];
    }
  }

  lemma MoveToEnd<V(!new)>(f: Id -> seq<Write<V>>, b1: seq<Id>, x: Id, b2: seq<Id>, k: NodePath, c: Option<V>)
    requires forall y :: y in b2 ==> Swap(f, x, y, k)
    ensures CellOf(f, b1 + [x] + b2, k, c) == CellOf(f, b1 + b2 + [x], k, c)
  {
    hide CellOf, Swap;
    assert b1 + [x] + b2 == b1 + ([x] + b2) && b1 + b2 + [x] == b1 + (b2 + [x]);
    CellConcat(f, b1, [x] + b2, k, c);
    CellConcat(f, b1, b2 + [x], k, c);
    match CellOf(f, b1, k, c) {
      case None =>
      case Some(d) => MoveBack(f, x, b2, k, d);
    }
  }

  // ---- confluence ----------------------------------------------------------

  /** What two linear orders list in opposite order is causally unrelated. */
  lemma OppositeIsUnrelated(e: Edges, s: set<Id>, a: seq<Id>, b: seq<Id>, x: Id, y: Id)
    requires Acyclic(e) && Closed(e, s) && Linear(e, s, a) && Linear(e, s, b) && Before(a, x, y) && Before(b, y, x)
    ensures x in s && y in s && x != y && !Related(e, x, y)
  {
    NotAboveLater(e, s, a, x, y);
    NotAboveLater(e, s, b, y, x);
  }

  lemma NotAboveLater(e: Edges, s: set<Id>, a: seq<Id>, x: Id, y: Id)
    requires Acyclic(e) && Closed(e, s) && Linear(e, s, a) && Before(a, x, y)
    ensures x in s && y in s && x != y && !Above(e, x, y)
  {
    var i, j :| 0 <= i < j < |a| && a[i] == x && a[j] == y;
    assert a[i] in Elems(a) && a[j] in Elems(a);
    assert y !in a[..i];
    if Above(e, x, y) {
      BelowIsEarlier(e, s, a, i, y);
    }
  }

  lemma CommutingSwap(store: Store, x: Id, y: Id, env: Env, k: NodePath)
    requires x in store && y in store && Commutes(store[x], store[y])
    ensures Swap(WritesIn(store, env), x, y, k)
  {
    forall c {
      SameCellBothOrders(store[x], store[y], env, k, c);
    }
  }

  lemma OrdersSameCell(store: Store, s: set<Id>, a: seq<Id>, b: seq<Id>, env: Env, k: NodePath)
    requires Acyclic(EdgesOf(store)) && Complete(store, s) && ConflictFree(store, s)
    requires Linear(EdgesOf(store), s, a) && Linear(EdgesOf(store), s, b)
    ensures forall c :: CellOf(WritesIn(store, env), a, k, c) == CellOf(WritesIn(store, env), b, k, c)
  {
    var f := WritesIn(store, env);
    hide Swap, Before, WritesIn, Commutes;
    forall x, y | Before(a, x, y) && Before(b, y, x) ensures Swap(f, x, y, k) {
      OppositeIsUnrelated(EdgesOf(store), s, a, b, x, y);
      CommutingSwap(store, x, y, env, k);
    }
    forall c {
      SameCell(f, a, b, k, c);
    }
  }

  /**
   Every two linear orders of a conflict-free history replay to the same state or both fail, also when
   unrelated changes track the same blob.
   */
  lemma Confluence(store: Store, s: set<Id>, a: seq<Id>, b: seq<Id>, env: Env)
    requires Acyclic(EdgesOf(store)) && Complete(store, s) && ConflictFree(store, s)
    requires Linear(EdgesOf(store), s, a) && Linear(EdgesOf(store), s, b)
    ensures Replay(store, a, env) == Replay(store, b, env)
  {
    var f := WritesIn(store, env);
    hide WritesIn;
    H.FlatNoFail(f, a);
    H.FlatNoFail(f, b);
    assert forall x :: x in a <==> x in Elems(b);
    var none: State := map[];
    forall k ensures RunCell(Get(none, k), Proj(H.Flat(f, a), k)) == RunCell(Get(none, k), Proj(H.Flat(f, b), k)) {
      OrdersSameCell(store, s, a, b, env, k);
      assert CellOf(f, a, k, None) == CellOf(f, b, k, None);
    }
    SameCells(none, H.Flat(f, a), H.Flat(f, b));
  }

  // ---- merging two histories -----------------------------------------------

  /** A delta writes the key. */
  ghost predicate DeltaTouches(store: Store, delta: set<Id>, k: NodePath, env: Env) {
    exists x :: x in delta && Proj(WritesIn(store, env)(x), k) != []
  }

  /** A closed part in a linear order of its own, then the rest in the order of the whole. */
  lemma PartThenRest(e: Edges, r: set<Id>, s: set<Id>, os: seq<Id>, or: seq<Id>)
    requires Closed(e, s) && s <= r && Linear(e, s, os) && Linear(e, r, or)
    ensures Linear(e, r, os + H.Keep(or, r - s)) && Elems(H.Keep(or, r - s)) == r - s
  {
    H.KeepLinear(e, r, or, r - s);
    var rest := H.Keep(or, r - s);
    LinearConcat(e, r, s, os, rest);
  }

  lemma LinearConcat(e: Edges, r: set<Id>, s: set<Id>, a: seq<Id>, b: seq<Id>)
    requires Closed(e, s) && s <= r && Linear(e, s, a) && Linear(e, r - s, b)
    ensures Linear(e, r, a + b)
  {
    var o := a + b;
    assert forall i :: 0 <= i < |a| ==> o[i] in Elems(a);
    assert forall i :: |a| <= i < |o| ==> o[i] == b[i - |a|] && o[i] in Elems(b);
    assert forall x :: x in Elems(o) <==> x in Elems(a) || x in Elems(b);
    assert s + (r - s) == r;
    forall i, d | 0 <= i < |o| && d in Deps(e, o[i]) * r ensures d in o[..i] {
      if i < |a| {
        assert o[i] in s && d in s;
        assert o[..i] == a[..i];
      } else {
        assert o[..i] == a + b[..i - |a|];
        if d in s {
          assert d in Elems(a);
        } else {
          assert d in Deps(e, b[i - |a|]) * (r - s);
        }
      }
    }
  }

  lemma {:induction false} NothingWritten<V>(f: Id -> seq<Write<V>>, order: seq<Id>, k: NodePath)
    requires forall x :: x in order ==> Proj(f(x), k) == []
    ensures Proj(H.Flat(f, order), k) == []
  {
    if order != [] {
      var init, last := order[..|order| - 1], order[|order| - 1];
      assert order == init + [last];
      NothingWritten(f, init, k);
      ProjConcat(H.Flat(f, init), f(last), k);
    }
  }

  lemma {:induction false} SameToken<V>(f: Id -> seq<Write<V>>, order: seq<Id>, k: NodePath, w: Write<V>)
    requires forall x, v :: x in order && v in Proj(f(x), k) ==> v == w
    ensures forall v :: v in Proj(H.Flat(f, order), k) ==> v == w
    ensures (exists x :: x in order && Proj(f(x), k) != []) ==> Proj(H.Flat(f, order), k) != []
  {
    if order != [] {
      var init, last := order[..|order| - 1], order[|order| - 1];
      assert order == init + [last];
      assert last in order && forall x :: x in order <==> x in init || x == last;
      SameToken(f, init, k, w);
      ProjConcat(H.Flat(f, init), f(last), k);
    }
  }

  /** When both deltas write a key, all they write there is one token. */
  lemma OneToken(store: Store, a: set<Id>, b: set<Id>, env: Env, k: NodePath) returns (w: Write<Bytes>)
    requires Complete(store, a) && Complete(store, b) && ConflictFree(store, a + b)
    requires DeltaTouches(store, a - b, k, env) && DeltaTouches(store, b - a, k, env)
    ensures w.Put?
    ensures forall x, v :: x in (a - b) + (b - a) && v in Proj(WritesIn(store, env)(x), k) ==> v == w
  {
    var f, e := WritesIn(store, env), EdgesOf(store);
    var x0 :| x0 in a - b && Proj(f(x0), k) != [];
    var y0 :| y0 in b - a && Proj(f(y0), k) != [];
    w := Proj(f(x0), k)[0];
    var w' := Proj(f(y0), k)[0];
    CrossToken(store, a, b, x0, y0, env, k, w, w');
    forall x, v | x in (a - b) + (b - a) && v in Proj(f(x), k) ensures v == w {
      if x in a - b {
        CrossToken(store, a, b, x, y0, env, k, v, w');
      } else {
        CrossToken(store, a, b, x0, x, env, k, w, v);
      }
    }
  }

  lemma CrossToken(store: Store, a: set<Id>, b: set<Id>, x: Id, y: Id, env: Env, k: NodePath, v: Write<Bytes>,
                   w: Write<Bytes>)
    requires Complete(store, a) && Complete(store, b) && ConflictFree(store, a + b)
    requires x in a - b && y in b - a && v in Proj(Writes(store[x], env), k) && w in Proj(Writes(store[y], env), k)
    ensures v == w && v.Put?
  {
    H.CrossUnrelated(EdgesOf(store), a, b, x, y);
    assert Commutes(store[x], store[y]);
    var p := WriteFrom(store[x], env, k, v);
    var q := WriteFrom(store[y], env, k, w);
    DisjointEffects(p, q, env);
  }

  /** The rest of an order, writing nothing but one token and writing it, leaves that token. */
  lemma RestLeavesToken(f: Id -> seq<Write<Bytes>>, order: seq<Id>, k: NodePath, w: Write<Bytes>, c: Option<Bytes>)
    requires w.Put? && forall x, v :: x in order && v in Proj(f(x), k) ==> v == w
    requires exists x :: x in order && Proj(f(x), k) != []
    ensures CellOf(f, order, k, c) == Some(Some(w.val))
  {
    SameToken(f, order, k, w);
    AllPuts(c, Proj(H.Flat(f, order), k), w);
  }

  /** A closed part decides a key the rest does not write. */
  lemma PartDecides(store: Store, r: set<Id>, s: set<Id>, env: Env, k: NodePath, c: Option<Bytes>)
    requires Acyclic(EdgesOf(store)) && Complete(store, r) && Complete(store, s) && s <= r && ConflictFree(store, r)
    requires !DeltaTouches(store, r - s, k, env)
    ensures CellOf(WritesIn(store, env), KahnOrder(EdgesOf(store), r), k, c)
         == CellOf(WritesIn(store, env), KahnOrder(EdgesOf(store), s), k, c)
  {
    var e, f := EdgesOf(store), WritesIn(store, env);
    var or, os := KahnOrder(e, r), KahnOrder(e, s);
    KahnOrderLinear(e, r);
    KahnOrderLinear(e, s);
    PartThenRest(e, r, s, os, or);
    var rest := H.Keep(or, r - s);
    OrdersSameCell(store, r, or, os + rest, env, k);
    CellConcat(f, os, rest, k, c);
    forall x | x in rest ensures Proj(f(x), k) == [] {
      assert x in Elems(rest);
    }
    NothingWritten(f, rest, k);
    NoWritesNoChange(f, rest, k);
  }

  lemma NoWritesNoChange(f: Id -> seq<Write<Bytes>>, order: seq<Id>, k: NodePath)
    requires Proj(H.Flat(f, order), k) == []
    ensures forall c :: Then(f, order, k, c) == c
  {}

  /** A closed part runs, and the rest then writes one token: that token is left. */
  lemma RestDecides(store: Store, r: set<Id>, s: set<Id>, env: Env, k: NodePath, w: Write<Bytes>)
    requires Acyclic(EdgesOf(store)) && Complete(store, r) && Complete(store, s) && s <= r && ConflictFree(store, r)
    requires DeltaTouches(store, r - s, k, env)
    requires w.Put? && forall x, v :: x in r - s && v in Proj(WritesIn(store, env)(x), k) ==> v == w
    ensures CellOf(WritesIn(store, env), KahnOrder(EdgesOf(store), r), k, None)
         == if CellOf(WritesIn(store, env), KahnOrder(EdgesOf(store), s), k, None).None? then None
            else Some(Some(w.val))
  {
    var e, f := EdgesOf(store), WritesIn(store, env);
    var or, os := KahnOrder(e, r), KahnOrder(e, s);
    KahnOrderLinear(e, r);
    KahnOrderLinear(e, s);
    PartThenRest(e, r, s, os, or);
    var rest := H.Keep(or, r - s);
    OrdersSameCell(store, r, or, os + rest, env, k);
    CellConcat(f, os, rest, k, None);
    assert forall x :: x in rest <==> x in Elems(rest);
    match CellOf(f, os, k, None) {
      case None =>
      case Some(d) => RestLeavesToken(f, rest, k, w, d);
    }
  }

  /** What a merge leaves at a key: the current side's cell if its delta writes the key, else the target's. */
  ghost function MergedAt(store: Store, a: set<Id>, b: set<Id>, sa: State, sb: State, k: NodePath, env: Env)
    : Option<Bytes>
  {
    if DeltaTouches(store, a - b, k, env) then Get(sa, k) else Get(sb, k)
  }

  lemma MergedCell(store: Store, a: set<Id>, b: set<Id>, env: Env, k: NodePath)
    requires Acyclic(EdgesOf(store)) && Complete(store, a) && Complete(store, b) && ConflictFree(store, a + b)
    requires CellOf(WritesIn(store, env), KahnOrder(EdgesOf(store), a), k, None).Some?
    requires CellOf(WritesIn(store, env), KahnOrder(EdgesOf(store), b), k, None).Some?
    ensures CellOf(WritesIn(store, env), KahnOrder(EdgesOf(store), a + b), k, None)
         == CellOf(WritesIn(store, env),
                   KahnOrder(EdgesOf(store), if DeltaTouches(store, a - b, k, env) then a else b), k, None)
  {
    hide CellOf, DeltaTouches, ConflictFree, KahnOrder, EdgesOf, WritesIn;
    UnionComplete(store, a, b);
    assert (a + b) - a == b - a && (a + b) - b == a - b && a - a * b == a - b;
    if !DeltaTouches(store, a - b, k, env) {
      PartDecides(store, a + b, b, env, k, None);
    } else if !DeltaTouches(store, b - a, k, env) {
      PartDecides(store, a + b, a, env, k, None);
    } else {
      var w := OneToken(store, a, b, env, k);
      RestDecides(store, a + b, a, env, k, w);
      RestDecides(store, a, a * b, env, k, w);
    }
  }

  lemma UnionComplete(store: Store, a: set<Id>, b: set<Id>)
    requires Complete(store, a) && Complete(store, b) && ConflictFree(store, a + b)
    ensures Complete(store, a + b) && Complete(store, a * b) && ConflictFree(store, a) && ConflictFree(store, b)
  {}

  /**
   A merge loses nothing: when both sides replay and their union is conflict-free, the union replays, and
   each key holds the value (or absence) of the side whose delta writes it. Where both deltas write a key
   they track the same blob, and that is what both sides hold.
   */
  lemma MergeLosesNothing(store: Store, a: set<Id>, b: set<Id>, env: Env)
    requires Acyclic(EdgesOf(store)) && Complete(store, a) && Complete(store, b) && ConflictFree(store, a + b)
    requires Materialized(store, a, env).Some? && Materialized(store, b, env).Some?
    ensures Materialized(store, a + b, env).Some?
    ensures forall k :: Get(Materialized(store, a + b, env).value, k)
                     == MergedAt(store, a, b, Materialized(store, a, env).value,
                                 Materialized(store, b, env).value, k, env)
    ensures forall k :: DeltaTouches(store, a - b, k, env) && DeltaTouches(store, b - a, k, env) ==>
                          Get(Materialized(store, a, env).value, k) == Get(Materialized(store, b, env).value, k)
  {
    var e, f := EdgesOf(store), WritesIn(store, env);
    var oa, ob, ou := KahnOrder(e, a), KahnOrder(e, b), KahnOrder(e, a + b);
    var none: State := map[];
    hide KahnOrder, WritesIn, EdgesOf, ConflictFree, DeltaTouches, Complete, Run, Proj;
    RunSucceeds(none, H.Flat(f, oa));
    RunSucceeds(none, H.Flat(f, ob));
    H.UnionNoFail(e, a, b, f);
    forall k
      ensures CellOf(f, oa, k, None) == RunCell(Get(none, k), Proj(H.Flat(f, oa), k))
      ensures CellOf(f, ob, k, None) == RunCell(Get(none, k), Proj(H.Flat(f, ob), k))
      ensures CellOf(f, ou, k, None) == RunCell(Get(none, k), Proj(H.Flat(f, ou), k))
    {}
    forall k
      ensures CellOf(f, ou, k, None) == CellOf(f, if DeltaTouches(store, a - b, k, env) then oa else ob, k, None)
    {
      MergedCell(store, a, b, env, k);
    }
    hide CellOf;
    RunSucceeds(none, H.Flat(f, ou));
    forall k
      ensures CellOf(f, ou, k, None) == Some(Get(Run(none, H.Flat(f, ou)).value, k))
      ensures CellOf(f, oa, k, None) == Some(Get(Run(none, H.Flat(f, oa)).value, k))
      ensures CellOf(f, ob, k, None) == Some(Get(Run(none, H.Flat(f, ob)).value, k))
    {
      RunAt(none, H.Flat(f, ou), k);
      RunAt(none, H.Flat(f, oa), k);
      RunAt(none, H.Flat(f, ob), k);
    }
    forall k | DeltaTouches(store, a - b, k, env) && DeltaTouches(store, b - a, k, env)
      ensures CellOf(f, oa, k, None) == CellOf(f, ob, k, None)
    {
      SameOnBoth(store, a, b, env, k);
    }
  }

  /** Where both deltas write a key the two sides agree. */
  lemma SameOnBoth(store: Store, a: set<Id>, b: set<Id>, env: Env, k: NodePath)
    requires Acyclic(EdgesOf(store)) && Complete(store, a) && Complete(store, b) && ConflictFree(store, a + b)
    requires DeltaTouches(store, a - b, k, env) && DeltaTouches(store, b - a, k, env)
    requires CellOf(WritesIn(store, env), KahnOrder(EdgesOf(store), a), k, None).Some?
    requires CellOf(WritesIn(store, env), KahnOrder(EdgesOf(store), b), k, None).Some?
    ensures CellOf(WritesIn(store, env), KahnOrder(EdgesOf(store), a), k, None)
         == CellOf(WritesIn(store, env), KahnOrder(EdgesOf(store), b), k, None)
  {
    hide CellOf, DeltaTouches, ConflictFree, KahnOrder, EdgesOf, WritesIn;
    UnionComplete(store, a, b);
    var w := OneToken(store, a, b, env, k);
    assert a - a * b == a - b && b - a * b == b - a;
    RestDecides(store, a, a * b, env, k, w);
    RestDecides(store, b, a * b, env, k, w);
  }
}
