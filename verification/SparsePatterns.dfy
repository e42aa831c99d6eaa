/**
 Sparse patterns: how they are normalised, and that they match whole path segments (`crates/arc-
 algebra/src/sparse.rs`).
 */
module SparsePatterns {
  import opened Base
  import PatchAlgebra

  // ---- segments ------------------------------------------------------------

  /** The segments with one more character in front. */
  function Pushed(c: char, segments: seq<string>): seq<string>
    requires |segments| > 0
  {
    if c == '/' then [[]] + segments else [[c] + segments[0]] + segments[1..]
  }

  /** A path split at its slashes. */
  function Segments(s: string): (r: seq<string>)
    ensures |r| > 0
  {
    if s == [] then [[]] else Pushed(s[0], Segments(s[1..]))
  }

  function Join(segments: seq<string>): string
    requires |segments| > 0
  {
    if |segments| == 1 then segments[0] else segments[0] + "/" + Join(segments[1..])
  }

  lemma {:induction false} JoinSegments(s: string)
    ensures Join(Segments(s)) == s
  {
    if s != [] {
      var rest := Segments(s[1..]);
      JoinSegments(s[1..]);
      assert s == [s[0]] + s[1..];
      if s[0] == '/' {
        assert ([[]] + rest)[1..] == rest;
        assert [] + "/" + Join(rest) == "/" + Join(rest);
      } else {
        JoinPrepend(s[0], rest);
      }
    }
  }

  /** No segment holds a slash, so with `JoinSegments` the segments are the pieces between the slashes. */
  lemma {:induction false} SegmentsHoldNoSlash(s: string)
    ensures forall x :: x in Segments(s) ==> '/' !in x
  {
    if s != [] {
      SegmentsHoldNoSlash(s[1..]);
      var rest := Segments(s[1..]);
      assert rest[0] in rest && forall x :: x in rest[1..] ==> x in rest;
    }
  }

  lemma JoinPrepend(c: char, segments: seq<string>)
    requires |segments| > 0
    ensures Join([[c] + segments[0]] + segments[1..]) == [c] + Join(segments)
  {
    var more := [[c] + segments[0]] + segments[1..];
    assert more[0] == [c] + segments[0] && more[1..] == segments[1..];
    if |segments| > 1 {
      var rest := Join(segments[1..]);
      assert Join(more) == ([c] + segments[0]) + "/" + rest && Join(segments) == segments[0] + "/" + rest;
      hide Join;
      Regroup([c], segments[0], rest);
    }
  }

  lemma Regroup(a: string, b: string, c: string)
    ensures (a + b) + "/" + c == a + (b + "/" + c)
  {}

  lemma {:induction false} SegmentsAppend(a: string, b: string)
    ensures Segments(a + "/" + b) == Segments(a) + Segments(b)
  {
    var s := a + "/" + b;
    if a == [] {
      assert s == "/" + b && s[1..] == b;
    } else {
      assert s[0] == a[0] && s[1..] == a[1..] + "/" + b;
      SegmentsAppend(a[1..], b);
      var x, y := Segments(a[1..]), Segments(b);
      assert Segments(s) == Pushed(a[0], x + y) && Segments(a) == Pushed(a[0], x);
      hide Segments;
      PushedAppend(a[0], x, y);
    }
  }

  lemma PushedAppend(c: char, x: seq<string>, y: seq<string>)
    requires |x| > 0
    ensures Pushed(c, x + y) == Pushed(c, x) + y
  {
    assert (x + y)[1..] == x[1..] + y;
  }

  lemma {:induction false} JoinAppend(a: seq<string>, b: seq<string>)
    requires |a| > 0 && |b| > 0
    ensures Join(a + b) == Join(a) + "/" + Join(b)
  {
    assert (a + b)[1..] == a[1..] + b;
    if |a| > 1 {
      JoinAppend(a[1..], b);
      assert a[0] + "/" + (Join(a[1..]) + "/" + Join(b)) == (a[0] + "/" + Join(a[1..])) + "/" + Join(b);
    }
  }

  // ---- matching ------------------------------------------------------------

  /** The comparison of a normalised path with a normalised pattern. */
  predicate Matches(pattern: string, path: string) {
    path == pattern || (pattern <= path && |path| > |pattern| && path[|pattern|] == '/')
  }

  /** A pattern matches exactly the paths whose leading segments are its own. */
  lemma MatchesIff(pattern: string, path: string)
    ensures Matches(pattern, path) <==> Segments(pattern) <= Segments(path)
  {
    if Matches(pattern, path) && path != pattern {
      var rest := path[|pattern| + 1..];
      assert path == pattern + "/" + rest;
      SegmentsAppend(pattern, rest);
    }
    if Segments(pattern) <= Segments(path) {
      LeadingSegments(pattern, path);
    }
  }

  lemma LeadingSegments(pattern: string, path: string)
    requires Segments(pattern) <= Segments(path)
    ensures Matches(pattern, path)
  {
    hide Segments, Join;
    var a, b := Segments(pattern), Segments(path)[|Segments(pattern)|..];
    assert Segments(path) == a + b;
    JoinSegments(pattern);
    JoinSegments(path);
    if b == [] {
      assert a + b == a;
    } else {
      JoinAppend(a, b);
    }
  }

  // ---- normalisation -------------------------------------------------------

  function TrimStart(s: string, drop: char -> bool): (r: string)
    ensures |r| <= |s| && (|r| == |s| ==> r == s)
    ensures r != [] ==> !drop(r[0])
  {
    if s != [] && drop(s[0]) then TrimStart(s[1..], drop) else s
  }

  function TrimEnd(s: string, drop: char -> bool): (r: string)
    ensures |r| <= |s| && (|r| == |s| ==> r == s) && r <= s
    ensures r != [] ==> !drop(r[|r| - 1])
  {
    if s != [] && drop(s[|s| - 1]) then TrimEnd(s[..|s| - 1], drop) else s
  }

  function Trim(s: string, drop: char -> bool): (r: string)
    ensures |r| <= |s| && (|r| == |s| ==> r == s)
  {
    TrimEnd(TrimStart(s, drop), drop)
  }

  function Forward(c: char): char {
    if c == '\\' then '/' else c
  }

  /** Backslashes become slashes. */
  function Slashes(s: string): (r: string)
    ensures |r| == |s|
  {
    seq(|s|, i requires 0 <= i < |s| => Forward(s[i]))
  }

  function DropDots(s: string): (r: string)
    ensures |r| <= |s| && (|r| == |s| ==> r == s)
    ensures !("./" <= r)
  {
    if "./" <= s then DropDots(s[2..]) else s
  }

  const IS_SLASH: char -> bool := c => c == '/'

  /** What is left of a path before its slashes are trimmed. */
  function Undotted(s: string, space: char -> bool): string {
    DropDots(Slashes(Trim(s, space)))
  }

  /** The normal form; `space` tells which characters are white space. */
  function Normal(s: string, space: char -> bool): string {
    Trim(Undotted(s, space), IS_SLASH)
  }

  // ---- what the normal form is ---------------------------------------------

  lemma {:induction false} TrimStartIs(s: string, drop: char -> bool) returns (i: nat)
    ensures i <= |s| && TrimStart(s, drop) == s[i..] && forall x :: 0 <= x < i ==> drop(s[x])
  {
    if s != [] && drop(s[0]) {
      i := TrimStartIs(s[1..], drop);
      assert forall x :: 0 < x < i + 1 ==> s[x] == s[1..][x - 1];
      i := i + 1;
    } else {
      i := 0;
    }
  }

  lemma {:induction false} TrimEndIs(s: string, drop: char -> bool) returns (j: nat)
    ensures j <= |s| && TrimEnd(s, drop) == s[..j] && forall x :: j <= x < |s| ==> drop(s[x])
    decreases |s|
  {
    if s != [] && drop(s[|s| - 1]) {
      j := TrimEndIs(s[..|s| - 1], drop);
      assert s[..|s| - 1][..j] == s[..j];
    } else {
      j := |s|;
    }
  }

  /** Trimming takes the dropped characters from both ends, and no other. */
  lemma TrimIs(s: string, drop: char -> bool) returns (i: nat, j: nat)
    ensures i <= j <= |s| && Trim(s, drop) == s[i..j]
    ensures forall x :: (0 <= x < i || j <= x < |s|) ==> drop(s[x])
    ensures i < j ==> !drop(s[i]) && !drop(s[j - 1])
  {
    i := TrimStartIs(s, drop);
    var l := TrimEndIs(s[i..], drop);
    j := i + l;
    assert s[i..][..l] == s[i..j];
    forall x | j <= x < |s| ensures drop(s[x]) {
      assert s[x] == s[i..][x - i];
    }
    if i < j {
      assert s[i..] != [] && s[i..][0] == s[i] && Trim(s, drop)[|Trim(s, drop)| - 1] == s[j - 1];
    }
  }

  /** What is dropped in front is `./`, as often as it is there. */
  lemma {:induction false} DropDotsIs(s: string) returns (n: nat)
    ensures 2 * n <= |s| && DropDots(s) == s[2 * n..] && !("./" <= s[2 * n..])
    ensures forall x :: 0 <= x < n ==> s[2 * x] == '.' && s[2 * x + 1] == '/'
  {
    if "./" <= s {
      var rest := s[2..];
      var m := DropDotsIs(rest);
      n := m + 1;
      assert rest[2 * m..] == s[2 * n..];
      forall x | 0 <= x < n ensures s[2 * x] == '.' && s[2 * x + 1] == '/' {
        if x > 0 {
          assert rest[2 * (x - 1)] == s[2 * x] && rest[2 * (x - 1) + 1] == s[2 * x + 1];
        }
      }
    } else {
      n := 0;
    }
  }

  /**
   The normal form of every path: of what lies between its outer white space, each backslash read as a
   slash, the part behind the leading `./` repetitions and between the slashes at either end.
   */
  lemma NormalIs(s: string, space: char -> bool) returns (t: string, i: nat, j: nat, n: nat, k: nat, l: nat)
    ensures i <= j <= |s| && (forall x :: (0 <= x < i || j <= x < |s|) ==> space(s[x]))
    ensures i < j ==> !space(s[i]) && !space(s[j - 1])
    ensures |t| == j - i && forall x :: 0 <= x < |t| ==> t[x] == if s[i + x] == '\\' then '/' else s[i + x]
    ensures 2 * n <= k <= l <= |t| && !("./" <= t[2 * n..])
    ensures forall x :: 0 <= x < n ==> t[2 * x] == '.' && t[2 * x + 1] == '/'
    ensures forall x :: (2 * n <= x < k || l <= x < |t|) ==> t[x] == '/'
    ensures k < l ==> t[k] != '/' && t[l - 1] != '/'
    ensures Normal(s, space) == t[k..l]
  {
    hide Trim, TrimStart, TrimEnd, DropDots, Slashes;
    i, j := TrimIs(s, space);
    t := Slashes(s[i..j]);
    SlashesIs(s[i..j]);
    n := DropDotsIs(t);
    k, l := OuterSlashes(t, 2 * n);
  }

  lemma SlashesIs(s: string)
    ensures |Slashes(s)| == |s| && forall x :: 0 <= x < |s| ==> Slashes(s)[x] == if s[x] == '\\' then '/' else s[x]
  {}

  lemma OuterSlashes(t: string, m: nat) returns (k: nat, l: nat)
    requires m <= |t|
    ensures m <= k <= l <= |t| && Trim(t[m..], IS_SLASH) == t[k..l]
    ensures forall x :: (m <= x < k || l <= x < |t|) ==> t[x] == '/'
    ensures k < l ==> t[k] != '/' && t[l - 1] != '/'
  {
    hide Trim;
    var u := t[m..];
    var a, b := TrimIs(u, IS_SLASH);
    k, l := m + a, m + b;
    assert u[a..b] == t[k..l];
    forall x | m <= x < k || l <= x < |t| ensures t[x] == '/' {
      assert u[x - m] == t[x];
    }
  }

  method Normalize(input: string, space: char -> bool) returns (s: string)
    ensures s == Normal(input, space)
  {
    s := Slashes(Trim(input, space));
    while "./" <= s
      invariant DropDots(s) == DropDots(Slashes(Trim(input, space)))
      decreases |s|
    {
      s := s[2..];
    }
    s := TrimStart(s, IS_SLASH);
    s := TrimEnd(s, IS_SLASH);
  }

  predicate Tidy(s: string, space: char -> bool) {
    && '\\' !in s && !("./" <= s)
    && (s != [] ==> s[0] != '/' && s[|s| - 1] != '/' && !space(s[0]) && !space(s[|s| - 1]))
  }

  lemma TrimNothing(s: string, drop: char -> bool)
    requires s != [] ==> !drop(s[0]) && !drop(s[|s| - 1])
    ensures Trim(s, drop) == s
  {}

  lemma TrimmedEnds(s: string, drop: char -> bool)
    requires Trim(s, drop) == s && s != []
    ensures !drop(s[0]) && !drop(s[|s| - 1])
  {
    assert |TrimStart(s, drop)| == |s|;
  }

  /** The fixed points of normalisation: no backslash, no leading `./`, no slash or white space at either end. */
  lemma NormalFixed(s: string, space: char -> bool)
    ensures Normal(s, space) == s <==> Tidy(s, space)
  {
    var t := Trim(s, space);
    var u := Slashes(t);
    if Normal(s, space) == s {
      assert |t| == |s| && |DropDots(u)| == |u|;
      assert u == s && t == s;
      forall i | 0 <= i < |s| ensures s[i] != '\\' {
        assert u[i] == Forward(s[i]);
      }
      if s != [] {
        TrimmedEnds(s, space);
        TrimmedEnds(s, IS_SLASH);
      }
    }
    if Tidy(s, space) {
      TrimNothing(s, space);
      assert u == s;
      TrimNothing(s, IS_SLASH);
    }
  }

  /** `i` and `j` are the first and the last place that is not a slash. */
  predicate Span(u: string, i: nat, j: nat) {
    && i <= j < |u| && u[i] != '/' && u[j] != '/'
    && (forall k :: 0 <= k < i ==> u[k] == '/')
    && (forall k :: j < k < |u| ==> u[k] == '/')
  }

  /**
   Behind the slashes at either end there is no white space, and behind the leading ones no `./` with
   more to follow.
   */
  ghost predicate Settled(u: string, space: char -> bool) {
    forall i: nat, j: nat :: Span(u, i, j) ==>
      !space(u[i]) && !space(u[j]) && !(i + 1 < j && u[i] == '.' && u[i + 1] == '/')
  }

  lemma {:induction false} TrimStartSpan(u: string, i: nat)
    requires i < |u| && u[i] != '/' && forall k :: 0 <= k < i ==> u[k] == '/'
    ensures TrimStart(u, IS_SLASH) == u[i..]
  {
    if i > 0 {
      TrimStartSpan(u[1..], i - 1);
    }
  }

  lemma {:induction false} TrimEndSpan(u: string, j: nat)
    requires j < |u| && u[j] != '/' && forall k :: j < k < |u| ==> u[k] == '/'
    ensures TrimEnd(u, IS_SLASH) == u[..j + 1]
    decreases |u|
  {
    if j + 1 < |u| {
      TrimEndSpan(u[..|u| - 1], j);
      assert u[..|u| - 1][..j + 1] == u[..j + 1];
    } else {
      assert u[..j + 1] == u;
    }
  }

  /** Trimming the slashes leaves what lies between the first and the last place that is not one. */
  lemma TrimSpan(u: string, i: nat, j: nat)
    requires Span(u, i, j)
    ensures Trim(u, IS_SLASH) == u[i..j + 1]
  {
    TrimStartSpan(u, i);
    TrimEndSpan(u[i..], j - i);
    assert u[i..][..j - i + 1] == u[i..j + 1];
  }

  lemma {:induction false} AllSlashes(u: string)
    requires forall k :: 0 <= k < |u| ==> u[k] == '/'
    ensures TrimStart(u, IS_SLASH) == []
  {
    if u != [] {
      AllSlashes(u[1..]);
    }
  }

  lemma FirstNonSlash(u: string, k: nat) returns (i: nat)
    requires k < |u| && u[k] != '/'
    ensures i <= k && u[i] != '/' && forall l :: 0 <= l < i ==> u[l] == '/'
  {
    i := 0;
    while u[i] == '/'
      invariant i <= k && forall l :: 0 <= l < i ==> u[l] == '/'
      decreases k - i
    {
      i := i + 1;
    }
  }

  lemma LastNonSlash(u: string, k: nat) returns (j: nat)
    requires k < |u| && u[k] != '/'
    ensures k <= j < |u| && u[j] != '/' && forall l :: j < l < |u| ==> u[l] == '/'
  {
    j := |u| - 1;
    while u[j] == '/'
      invariant k <= j < |u| && forall l :: j < l < |u| ==> u[l] == '/'
      decreases j
    {
      j := j - 1;
    }
  }

  lemma {:induction false} DropDotsKeeps(s: string, c: char)
    requires c !in s
    ensures c !in DropDots(s)
  {
    if "./" <= s {
      assert forall x :: x in s[2..] ==> x in s;
      DropDotsKeeps(s[2..], c);
    }
  }

  lemma NoBackslash(s: string, space: char -> bool)
    ensures '\\' !in Undotted(s, space)
  {
    DropDotsKeeps(Slashes(Trim(s, space)), '\\');
  }

  lemma TidySpan(u: string, i: nat, j: nat, space: char -> bool)
    requires Span(u, i, j) && '\\' !in u
    ensures Tidy(u[i..j + 1], space)
       <==> !space(u[i]) && !space(u[j]) && !(i + 1 < j && u[i] == '.' && u[i + 1] == '/')
  {
    var n := u[i..j + 1];
    assert n[0] == u[i] && n[|n| - 1] == u[j] && '\\' !in n;
    if "./" <= n {
      assert n[0] == '.' && n[1] == '/' && n[1] == u[i + 1];
      assert i + 1 != j;
    }
    if i + 1 < j && u[i] == '.' && u[i + 1] == '/' {
      assert n[..2] == "./";
    }
  }

  lemma OneSpan(u: string, i: nat, j: nat)
    requires Span(u, i, j)
    ensures forall k: nat, l: nat :: Span(u, k, l) ==> k == i && l == j
  {}

  /**
   When normalising twice is normalising once, for every path: exactly when what is left before the
   slashes are trimmed has no white space right inside them and no further `./` behind the leading ones.
   */
  lemma NormalTwiceIff(s: string, space: char -> bool)
    ensures Normal(Normal(s, space), space) == Normal(s, space) <==> Settled(Undotted(s, space), space)
  {
    hide TrimStart, TrimEnd, Undotted, Tidy;
    var u := Undotted(s, space);
    NormalFixed(Normal(s, space), space);
    NoBackslash(s, space);
    if k :| 0 <= k < |u| && u[k] != '/' {
      var i := FirstNonSlash(u, k);
      var j := LastNonSlash(u, k);
      TrimSpan(u, i, j);
      TidySpan(u, i, j, space);
      OneSpan(u, i, j);
    } else {
      OnlySlashes(u, space);
    }
  }

  lemma OnlySlashes(u: string, space: char -> bool)
    requires forall k :: 0 <= k < |u| ==> u[k] == '/'
    ensures Settled(u, space) && Tidy(Trim(u, IS_SLASH), space)
  {
    AllSlashes(u);
  }

  /** Two paths that change again: a `./` behind a leading slash, and a space before a trailing one. */
  lemma NormalTwiceDiffers(space: char -> bool)
    requires space(' ') && !space('/') && !space('.') && !space('s') && !space('c')
    ensures Normal("/./src", space) == "./src" && Normal("./src", space) == "src"
    ensures Normal("src /", space) == "src " && Normal("src ", space) == "src"
  {
    LeadingDots(space);
    TrailingSpace(space);
  }

  lemma LeadingDots(space: char -> bool)
    requires !space('/') && !space('.') && !space('c')
    ensures Normal("/./src", space) == "./src" && Normal("./src", space) == "src"
  {
    var s, t := "/./src", "./src";
    TrimNothing(s, space);
    assert Slashes(s) == s && DropDots(s) == s;
    TrimSpan(s, 1, 5);
    TrimNothing(t, space);
    assert Slashes(t) == t && t[2..] == "src" && DropDots("src") == "src";
    TrimNothing("src", IS_SLASH);
  }

  lemma TrailingSpace(space: char -> bool)
    requires space(' ') && !space('/') && !space('s') && !space('c')
    ensures Normal("src /", space) == "src " && Normal("src ", space) == "src"
  {
    var s, t := "src /", "src ";
    TrimNothing(s, space);
    assert Slashes(s) == s && DropDots(s) == s;
    TrimSpan(s, 0, 3);
    assert t[..3] == "src" && TrimStart(t, space) == t && TrimEnd("src", space) == "src";
    assert TrimEnd(t, space) == "src";
    assert Slashes("src") == "src" && DropDots("src") == "src";
    TrimNothing("src", IS_SLASH);
  }

  // ---- the matcher ---------------------------------------------------------

  /** The normal forms that are not empty. */
  function Patterns(inputs: seq<string>, space: char -> bool): seq<string> {
    if inputs == [] then [] else
      var p := Normal(inputs[0], space);
      (if p == [] then [] else [p]) + Patterns(inputs[1..], space)
  }

  /** The boundary of a list of raw patterns. */
  function FromPatterns(inputs: seq<string>, space: char -> bool): PatchAlgebra.Matcher {
    var patterns := Patterns(inputs, space);
    PatchAlgebra.Matcher(patterns == [], (path: string) => exists p :: p in patterns && Matches(p, Normal(path, space)))
  }

  /** The path lies in or below what the raw pattern names. */
  ghost predicate Below(input: string, path: string, space: char -> bool) {
    Normal(input, space) != [] && Segments(Normal(input, space)) <= Segments(Normal(path, space))
  }

  lemma {:induction false} PatternsAre(inputs: seq<string>, space: char -> bool, p: string)
    ensures p in Patterns(inputs, space) <==> p != [] && exists i :: i in inputs && Normal(i, space) == p
  {
    if inputs != [] {
      PatternsAre(inputs[1..], space, p);
      assert forall i :: i in inputs <==> i == inputs[0] || i in inputs[1..];
    }
  }

  /**
   A node is inside the boundary exactly when no raw pattern is left after normalisation, or it is a file
   or directory node whose path lies in or below what one of them names.
   */
  lemma BoundaryIff(inputs: seq<string>, space: char -> bool, key: NodePath)
    ensures FromPatterns(inputs, space).MatchesNode(key)
       <==> || (forall i :: i in inputs ==> Normal(i, space) == [])
            || (&& |key| >= 2 && (key[0] == "file" || key[0] == "dir")
                && exists i :: i in inputs && Below(i, key[1], space))
  {
    hide Matches, Patterns, Normal, Segments;
    NoPatterns(inputs, space);
    if |key| >= 2 {
      SomePattern(inputs, space, key[1]);
    }
  }

  lemma NoPatterns(inputs: seq<string>, space: char -> bool)
    ensures Patterns(inputs, space) == [] <==> forall i :: i in inputs ==> Normal(i, space) == []
  {
    hide Normal;
    if Patterns(inputs, space) != [] {
      PatternsAre(inputs, space, Patterns(inputs, space)[0]);
    }
    forall i | i in inputs && Normal(i, space) != [] ensures Patterns(inputs, space) != [] {
      PatternsAre(inputs, space, Normal(i, space));
    }
  }

  lemma SomePattern(inputs: seq<string>, space: char -> bool, path: string)
    ensures (exists p :: p in Patterns(inputs, space) && Matches(p, Normal(path, space)))
       <==> exists i :: i in inputs && Below(i, path, space)
  {
    hide Patterns, Normal, Segments, Matches;
    if p :| p in Patterns(inputs, space) && Matches(p, Normal(path, space)) {
      PatternsAre(inputs, space, p);
      MatchesIff(p, Normal(path, space));
      var i :| i in inputs && Normal(i, space) == p;
      assert Below(i, path, space);
    }
    if i :| i in inputs && Below(i, path, space) {
      PatternsAre(inputs, space, Normal(i, space));
      MatchesIff(Normal(i, space), Normal(path, space));
    }
  }
}
