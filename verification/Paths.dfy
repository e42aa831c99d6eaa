/** The order of paths: segment by segment, each by its characters. */
module Paths {
  import opened Base

  /** Lexicographic order of strings by character. */
  predicate StrLess(a: string, b: string) {
    if b == [] then false
    else if a == [] then true
    else a[0] < b[0] || (a[0] == b[0] && StrLess(a[1..], b[1..]))
  }

  /** Lexicographic order of paths by segment. */
  predicate PathLess(a: NodePath, b: NodePath) {
    if b == [] then false
    else if a == [] then true
    else StrLess(a[0], b[0]) || (a[0] == b[0] && PathLess(a[1..], b[1..]))
  }

  /** `a` is a proper prefix of `b`, or less than `b` in the first place where they differ. */
  ghost predicate FirstDiffers<T>(a: seq<T>, b: seq<T>, less: (T, T) -> bool) {
    || (|a| < |b| && a == b[..|a|])
    || exists i :: 0 <= i < |a| && i < |b| && a[..i] == b[..i] && less(a[i], b[i])
  }

  lemma SameHead<T>(a: seq<T>, b: seq<T>, less: (T, T) -> bool)
    requires a != [] && b != [] && a[0] == b[0] && !less(a[0], a[0])
    ensures FirstDiffers(a, b, less) <==> FirstDiffers(a[1..], b[1..], less)
  {
    var x, y := a[1..], b[1..];
    assert a == [a[0]] + x && b == [b[0]] + y;
    assert |a| <= |b| ==> b[..|a|] == [b[0]] + y[..|x|];
    if i :| 0 <= i < |x| && i < |y| && x[..i] == y[..i] && less(x[i], y[i]) {
      assert a[..i + 1] == [a[0]] + x[..i] && b[..i + 1] == [b[0]] + y[..i];
      assert less(a[i + 1], b[i + 1]);
    }
    if i :| 0 <= i < |a| && i < |b| && a[..i] == b[..i] && less(a[i], b[i]) {
      assert x[..i - 1] == a[..i][1..] && y[..i - 1] == b[..i][1..];
      assert less(x[i - 1], y[i - 1]);
    }
  }

  lemma OtherHead<T>(a: seq<T>, b: seq<T>, less: (T, T) -> bool)
    requires a != [] && b != [] && a[0] != b[0]
    ensures FirstDiffers(a, b, less) <==> less(a[0], b[0])
  {
    assert a[..0] == b[..0];
    forall i | 0 < i < |a| && i < |b| ensures a[..i] != b[..i] {
      assert a[..i][0] != b[..i][0];
    }
    assert |a| <= |b| ==> b[..|a|][0] == b[0];
  }

  /** Strings are ordered by the first character in which they differ, a prefix before what extends it. */
  lemma {:induction false} StrLessIff(a: string, b: string)
    ensures StrLess(a, b) <==> FirstDiffers(a, b, (x: char, y: char) => x < y)
  {
    var less := (x: char, y: char) => x < y;
    if a != [] && b != [] {
      if a[0] == b[0] {
        StrLessIff(a[1..], b[1..]);
        SameHead(a, b, less);
      } else {
        OtherHead(a, b, less);
      }
      hide FirstDiffers;
    }
  }

  /** Paths are ordered by the first segment in which they differ, a path before what lies below it. */
  lemma {:induction false} PathLessIff(a: NodePath, b: NodePath)
    ensures PathLess(a, b) <==> FirstDiffers(a, b, StrLess)
  {
    if a != [] && b != [] {
      StrIrreflexive(a[0]);
      if a[0] == b[0] {
        PathLessIff(a[1..], b[1..]);
        SameHead(a, b, StrLess);
      } else {
        OtherHead(a, b, StrLess);
      }
      hide FirstDiffers, StrLess;
    }
  }

  lemma {:induction false} StrTotal(a: string, b: string)
    ensures StrLess(a, b) || a == b || StrLess(b, a)
  {
    if a != [] && b != [] && a[0] == b[0] {
      StrTotal(a[1..], b[1..]);
      assert a == [a[0]] + a[1..] && b == [b[0]] + b[1..];
    }
  }

  lemma {:induction false} StrTrans(a: string, b: string, c: string)
    requires StrLess(a, b) && StrLess(b, c)
    ensures StrLess(a, c)
  {
    if a != [] && a[0] == b[0] == c[0] {
      StrTrans(a[1..], b[1..], c[1..]);
    }
  }

  lemma {:induction false} StrIrreflexive(a: string)
    ensures !StrLess(a, a)
  {
    if a != [] {
      StrIrreflexive(a[1..]);
    }
  }

  lemma {:induction false} PathTotal(a: NodePath, b: NodePath)
    ensures PathLess(a, b) || a == b || PathLess(b, a)
  {
    if a != [] && b != [] {
      StrTotal(a[0], b[0]);
      if a[0] == b[0] {
        PathTotal(a[1..], b[1..]);
        assert a == [a[0]] + a[1..] && b == [b[0]] + b[1..];
      }
    }
  }

  lemma {:induction false} PathTrans(a: NodePath, b: NodePath, c: NodePath)
    requires PathLess(a, b) && PathLess(b, c)
    ensures PathLess(a, c)
  {
    if a != [] {
      if StrLess(a[0], b[0]) && StrLess(b[0], c[0]) {
        StrTrans(a[0], b[0], c[0]);
      } else if a[0] == b[0] == c[0] && !StrLess(a[0], c[0]) {
        StrIrreflexive(a[0]);
        PathTrans(a[1..], b[1..], c[1..]);
      }
    }
  }

  lemma {:induction false} PathIrreflexive(a: NodePath)
    ensures !PathLess(a, a)
  {
    if a != [] {
      StrIrreflexive(a[0]);
      PathIrreflexive(a[1..]);
    }
  }

  // ---- listing by path -----------------------------------------------------

  /** Listed by path, no path twice. */
  ghost predicate Ascends<T>(s: seq<(NodePath, T)>) {
    forall i, j :: 0 <= i < j < |s| ==> PathLess(s[i].0, s[j].0)
  }

  lemma InsertAscends<T>(r: seq<(NodePath, T)>, e: (NodePath, T), j: nat)
    requires Ascends(r) && j <= |r|
    requires forall l :: j <= l < |r| ==> PathLess(e.0, r[l].0)
    requires j > 0 ==> PathLess(r[j - 1].0, e.0)
    ensures Ascends(r[..j] + [e] + r[j..])
  {
    hide PathLess;
    var t := r[..j] + [e] + r[j..];
    forall l | 0 <= l < j ensures PathLess(r[l].0, e.0) {
      if l < j - 1 {
        PathTrans(r[l].0, r[j - 1].0, e.0);
      }
    }
    forall x, y | 0 <= x < y < |t| ensures PathLess(t[x].0, t[y].0) {
      var ix, iy := if x < j then x else x - 1, if y < j then y else y - 1;
      assert x != j ==> t[x] == r[ix];
      assert y != j ==> t[y] == r[iy];
    }
  }

  /** The library sort of a list without repeated paths. */
  method SortByPath<T>(s: seq<(NodePath, T)>) returns (r: seq<(NodePath, T)>)
    requires forall i, j :: 0 <= i < j < |s| ==> s[i].0 != s[j].0
    ensures Ascends(r) && forall e :: e in r <==> e in s
  {
    hide PathLess;
    r := [];
    for i := 0 to |s|
      invariant Ascends(r) && forall e :: e in r <==> e in s[..i]
    {
      var e := s[i];
      var j := |r|;
      while j > 0 && !PathLess(r[j - 1].0, e.0)
        invariant 0 <= j <= |r|
        invariant forall l :: j <= l < |r| ==> PathLess(e.0, r[l].0)
      {
        assert r[j - 1] in s[..i];
        PathTotal(e.0, r[j - 1].0);
        j := j - 1;
      }
      InsertAscends(r, e, j);
      assert r == r[..j] + r[j..];
      assert s[..i + 1] == s[..i] + [e];
      r := r[..j] + [e] + r[j..];
    }
    assert s[..|s|] == s;
  }
}
