/**
 The byte stream a value feeds to the content hasher (`crates/arc-change/src/content_hash.rs` and the
 derive macro of `crates/arc-content-hash-derive`), and why it determines the value.
 */
module ContentHash {
  import opened Base
  import opened Endian
  import opened Kahn

  /** The types with a `ContentHash` implementation, derived structs and enums included. */
  datatype Ty =
    | TBool
    | TInt(width: nat, signed: bool)
    | TByteArray(len: nat)
    | TStr
    | TList(elem: Ty)
    | TOption(elem: Ty)
    | TSet(elem: Ty)
    | TSerde
    | TStruct(fields: seq<Ty>)
    | TEnum(variants: seq<seq<Ty>>)

  /** Values; a string is its UTF-8 bytes and a serialised value its (injective) serialisation. */
  datatype Val =
    | VBool(b: bool)
    | VInt(x: int)
    | VBytes(bytes: Bytes)
    | VList(items: seq<Val>)
    | VNone
    | VSome(val: Val)
    | VSet(members: set<Val>)
    | VStruct(fields: seq<Val>)
    | VEnum(ordinal: nat, fields: seq<Val>)

  const U64_LIMIT: nat := 0x1_0000_0000_0000_0000
  const U32_LIMIT: nat := 0x1_0000_0000

  ghost predicate HasType(v: Val, t: Ty)
    decreases v, 1
  {
    match t
    case TBool => v.VBool?
    case TInt(n, signed) => v.VInt? && if signed then 0 <= 2 * v.x + Pow256(n) < 2 * Pow256(n) else 0 <= v.x < Pow256(n)
    case TByteArray(n) => v.VBytes? && |v.bytes| == n < U64_LIMIT
    case TStr => v.VBytes? && |v.bytes| < U64_LIMIT
    case TList(u) => v.VList? && |v.items| < U64_LIMIT && forall x :: x in v.items ==> HasType(x, u)
    case TOption(u) => v.VNone? || (v.VSome? && HasType(v.val, u))
    case TSet(u) => v.VSet? && |v.members| < U64_LIMIT && forall x :: x in v.members ==> HasType(x, u)
    case TSerde => v.VBytes? && |v.bytes| < U64_LIMIT
    case TStruct(us) => v.VStruct? && HaveTypes(v.fields, us)
    case TEnum(vs) => v.VEnum? && v.ordinal < |vs| <= U32_LIMIT && HaveTypes(v.fields, vs[v.ordinal])
  }

  ghost predicate HaveTypes(vs: seq<Val>, us: seq<Ty>)
    decreases vs, 0
  {
    if vs == [] || us == [] then vs == [] && us == []
    else HasType(vs[0], us[0]) && HaveTypes(vs[1..], us[1..])
  }

  /** The unsigned number with the same two's-complement bytes. */
  function Unsigned(x: int, n: nat): nat
    requires 0 <= x + Pow256(n)
  {
    if x < 0 then x + Pow256(n) else x
  }

  function Len(n: nat): Bytes {
    ToLe(n, 8)
  }

  /** The stream of a value. `hash` is the hasher's digest of a finished stream. */
  ghost function Enc(v: Val, t: Ty, hash: Bytes -> Id): Bytes
    requires HasType(v, t)
    decreases v, 1
  {
    match t
    case TBool => [if v.b then 1 else 0]
    case TInt(n, _) => ToLe(Unsigned(v.x, n), n)
    case TByteArray(n) => Len(n) + v.bytes
    case TStr => Len(|v.bytes|) + v.bytes
    case TList(u) => Len(|v.items|) + EncItems(v.items, u, hash)
    case TOption(u) => if v.VNone? then [0] else [1] + Enc(v.val, u, hash)
    case TSet(u) =>
      var digests := SortIds(set x | x in v.members :: hash(Enc(x, u, hash)));
      Len(|digests|) + EncDigests(digests)
    case TSerde => Len(|v.bytes|) + v.bytes
    case TStruct(us) => EncFields(v.fields, us, hash)
    case TEnum(vs) => ToLe(v.ordinal, 4) + EncFields(v.fields, vs[v.ordinal], hash)
  }

  ghost function EncItems(xs: seq<Val>, u: Ty, hash: Bytes -> Id): Bytes
    requires forall x :: x in xs ==> HasType(x, u)
    decreases xs, 0
  {
    if xs == [] then [] else Enc(xs[0], u, hash) + EncItems(xs[1..], u, hash)
  }

  ghost function EncFields(vs: seq<Val>, us: seq<Ty>, hash: Bytes -> Id): Bytes
    requires HaveTypes(vs, us)
    decreases vs, 0
  {
    if vs == [] then [] else Enc(vs[0], us[0], hash) + EncFields(vs[1..], us[1..], hash)
  }

  /** Digests are 32-byte arrays, each with its length in front. */
  ghost function EncDigests(ds: seq<Id>): Bytes {
    if ds == [] then [] else Len(32) + ToBe(ds[0], 32) + EncDigests(ds[1..])
  }

  // ---- the streams, byte by byte -------------------------------------------

  /** Byte `i` of the number, the least significant first. */
  function ByteOf(x: nat, i: nat): nat {
    Pow256Positive(i);
    (x / Pow256(i)) % 256
  }

  /** The bytes spell the number, the least significant first. */
  ghost predicate Spells(s: Bytes, x: nat) {
    forall i :: 0 <= i < |s| ==> s[i] as nat == ByteOf(x, i)
  }

  /** Eight bytes that spell the length, then the rest. */
  ghost predicate Counted(s: Bytes, n: nat, rest: Bytes) {
    |s| == 8 + |rest| && Spells(s[..8], n) && s[8..] == rest
  }

  lemma ToLeSpells(x: nat, n: nat)
    ensures |ToLe(x, n)| == n && Spells(ToLe(x, n), x)
  {
    forall i | 0 <= i < n ensures ToLe(x, n)[i] as nat == ByteOf(x, i) {
      ToLeAt(x, n, i);
    }
  }

  lemma LenCounts(n: nat, rest: Bytes)
    ensures Counted(Len(n) + rest, n, rest)
  {
    ToLeSpells(n, 8);
    assert (Len(n) + rest)[..8] == Len(n) && (Len(n) + rest)[8..] == rest;
  }

  /**
   What each type feeds: its bytes, least significant first; a length in eight bytes; a tag; an ordinal
   in four bytes.
   */
  lemma StreamIs(v: Val, t: Ty, hash: Bytes -> Id)
    requires HasType(v, t)
    ensures t.TBool? ==> Enc(v, t, hash) == if v.b then [1] else [0]
    ensures t.TInt? ==>
              && |Enc(v, t, hash)| == t.width
              && Spells(Enc(v, t, hash), if v.x < 0 then v.x + Pow256(t.width) else v.x)
    ensures t.TByteArray? || t.TStr? || t.TSerde? ==> Counted(Enc(v, t, hash), |v.bytes|, v.bytes)
    ensures t.TList? ==> Counted(Enc(v, t, hash), |v.items|, EncItems(v.items, t.elem, hash))
    ensures t.TOption? ==> Enc(v, t, hash) == if v.VNone? then [0] else [1] + Enc(v.val, t.elem, hash)
    ensures t.TSet? ==>
              exists ds: seq<Id> ::
                && Ascending(ds) && Elems(ds) == (set x | x in v.members :: hash(Enc(x, t.elem, hash)))
                && Counted(Enc(v, t, hash), |ds|, EncDigests(ds))
    ensures t.TStruct? ==> Enc(v, t, hash) == EncFields(v.fields, t.fields, hash)
    ensures t.TEnum? ==>
              && |Enc(v, t, hash)| >= 4 && Spells(Enc(v, t, hash)[..4], v.ordinal)
              && Enc(v, t, hash)[4..] == EncFields(v.fields, t.variants[v.ordinal], hash)
  {
    hide Counted, Spells, ToLe, EncItems, EncFields, EncDigests, SortIds;
    match t
    case TBool =>
    case TInt(n, _) => ToLeSpells(Unsigned(v.x, n), n);
    case TByteArray(_) => LenCounts(|v.bytes|, v.bytes);
    case TStr => LenCounts(|v.bytes|, v.bytes);
    case TSerde => LenCounts(|v.bytes|, v.bytes);
    case TList(u) => LenCounts(|v.items|, EncItems(v.items, u, hash));
    case TOption(_) =>
    case TSet(u) =>
      var ds := SortIds(set x | x in v.members :: hash(Enc(x, u, hash)));
      LenCounts(|ds|, EncDigests(ds));
      assert Ascending(ds) && Counted(Enc(v, t, hash), |ds|, EncDigests(ds));
    case TStruct(_) =>
    case TEnum(vs) =>
      ToLeSpells(v.ordinal, 4);
      var i, x := ToLe(v.ordinal, 4), EncFields(v.fields, vs[v.ordinal], hash);
      assert (i + x)[..4] == i && (i + x)[4..] == x;
  }

  /** Items follow each other without anything between them. */
  lemma {:induction false} ItemsConcat(a: seq<Val>, b: seq<Val>, u: Ty, hash: Bytes -> Id)
    requires forall x :: x in a + b ==> HasType(x, u)
    ensures (forall x :: x in a ==> HasType(x, u)) && (forall x :: x in b ==> HasType(x, u))
    ensures EncItems(a + b, u, hash) == EncItems(a, u, hash) + EncItems(b, u, hash)
  {
    assert forall x :: x in a + b <==> x in a || x in b;
    if a == [] {
      assert a + b == b;
      assert [] + EncItems(b, u, hash) == EncItems(b, u, hash);
    } else {
      assert (a + b)[0] == a[0] && (a + b)[1..] == a[1..] + b;
      ItemsConcat(a[1..], b, u, hash);
      var x := Enc(a[0], u, hash);
      assert EncItems(a + b, u, hash) == x + EncItems(a[1..] + b, u, hash);
      hide Enc, EncItems, HasType;
      Assoc(x, EncItems(a[1..], u, hash), EncItems(b, u, hash));
    }
  }

  lemma OneItem(x: Val, u: Ty, hash: Bytes -> Id)
    requires HasType(x, u)
    ensures EncItems([x], u, hash) == Enc(x, u, hash)
  {
    hide Enc;
    assert [x][1..] == [] && Enc(x, u, hash) + [] == Enc(x, u, hash);
  }

  /** Fields follow each other in declaration order. */
  lemma FieldsCons(v: Val, t: Ty, vs: seq<Val>, us: seq<Ty>, hash: Bytes -> Id)
    requires HasType(v, t) && HaveTypes(vs, us)
    ensures HaveTypes([v] + vs, [t] + us)
    ensures EncFields([v] + vs, [t] + us, hash) == Enc(v, t, hash) + EncFields(vs, us, hash)
  {
    hide Enc, HasType;
    assert ([v] + vs)[1..] == vs && ([t] + us)[1..] == us;
  }

  /** The bytes spell the number, the most significant first. */
  ghost predicate SpellsBig(s: Bytes, x: nat) {
    forall i :: 0 <= i < |s| ==> s[i] as nat == ByteOf(x, |s| - 1 - i)
  }

  lemma ToBeSpells(x: nat, n: nat)
    ensures |ToBe(x, n)| == n && SpellsBig(ToBe(x, n), x)
  {
    forall i | 0 <= i < n ensures ToBe(x, n)[i] as nat == ByteOf(x, n - 1 - i) {
      ToBeAt(x, n, i);
    }
  }

  /**
   Each digest is fed as an array of 32 bytes: its length in eight bytes, then the digest, most
   significant byte first.
   */
  lemma DigestAt(ds: seq<Id>, i: nat)
    requires i < |ds|
    ensures |EncDigests(ds)| == 40 * |ds|
    ensures Spells(EncDigests(ds)[40 * i..40 * i + 8], 32)
    ensures SpellsBig(EncDigests(ds)[40 * i + 8..40 * i + 40], ds[i])
  {
    DigestsSize(ds);
    DigestSlice(ds, i);
    ToLeSpells(32, 8);
    ToBeSpells(ds[i], 32);
    var all, one := EncDigests(ds), EncDigests(ds)[40 * i..40 * i + 40];
    hide EncDigests, Spells, SpellsBig;
    assert one[..8] == all[40 * i..40 * i + 8] && one[8..] == all[40 * i + 8..40 * i + 40];
  }

  lemma {:induction false} DigestSlice(ds: seq<Id>, i: nat)
    requires i < |ds|
    ensures |EncDigests(ds)| == 40 * |ds|
    ensures EncDigests(ds)[40 * i..40 * i + 40] == Len(32) + ToBe(ds[i], 32)
  {
    DigestsSize(ds);
    DigestsSize(ds[1..]);
    var one, rest := Len(32) + ToBe(ds[0], 32), EncDigests(ds[1..]);
    var all := EncDigests(ds);
    assert all == one + rest;
    hide EncDigests, Len, ToBe;
    if i == 0 {
      assert all[0..40] == one;
    } else {
      DigestSlice(ds[1..], i - 1);
      assert all[40 * i..40 * i + 40] == rest[40 * (i - 1)..40 * (i - 1) + 40];
    }
  }

  lemma {:induction false} DigestsSize(ds: seq<Id>)
    ensures |EncDigests(ds)| == 40 * |ds|
  {
    if ds != [] {
      DigestsSize(ds[1..]);
    }
  }

  // ---- the digests inside a value ------------------------------------------

  /** The streams that are digested inside a value: those of the members of its sets, at any depth. */
  ghost function Digested(v: Val, t: Ty, hash: Bytes -> Id): set<Bytes>
    requires HasType(v, t)
    decreases v, 1
  {
    match t
    case TList(u) => DigestedItems(v.items, u, hash)
    case TOption(u) => if v.VNone? then {} else Digested(v.val, u, hash)
    case TSet(u) =>
      (set x | x in v.members :: Enc(x, u, hash))
      + (set x, d | x in v.members && d in Digested(x, u, hash) :: d)
    case TStruct(us) => DigestedFields(v.fields, us, hash)
    case TEnum(vs) => DigestedFields(v.fields, vs[v.ordinal], hash)
    case _ => {}
  }

  ghost function DigestedItems(xs: seq<Val>, u: Ty, hash: Bytes -> Id): set<Bytes>
    requires forall x :: x in xs ==> HasType(x, u)
    decreases xs, 0
  {
    if xs == [] then {} else Digested(xs[0], u, hash) + DigestedItems(xs[1..], u, hash)
  }

  ghost function DigestedFields(vs: seq<Val>, us: seq<Ty>, hash: Bytes -> Id): set<Bytes>
    requires HaveTypes(vs, us)
    decreases vs, 0
  {
    if vs == [] then {} else Digested(vs[0], us[0], hash) + DigestedFields(vs[1..], us[1..], hash)
  }

  ghost predicate CollisionFree(hash: Bytes -> Id, streams: set<Bytes>) {
    forall a, b :: a in streams && b in streams && hash(a) == hash(b) ==> a == b
  }

  ghost predicate Digest32(hash: Bytes -> Id) {
    forall a :: hash(a) < Pow256(32)
  }

  // ---- unique decodability -------------------------------------------------

  lemma SplitAt(a: Bytes, b: Bytes, r: Bytes, s: Bytes)
    requires |a| == |b| && a + r == b + s
    ensures a == b && r == s
  {
    assert (a + r)[..|a|] == a && (b + s)[..|b|] == b;
    assert (a + r)[|a|..] == r && (b + s)[|b|..] == s;
  }

  lemma Assoc(a: Bytes, b: Bytes, c: Bytes)
    ensures a + b + c == a + (b + c)
  {}

  lemma LenSplit(m: nat, n: nat, r: Bytes, s: Bytes)
    requires m < U64_LIMIT && n < U64_LIMIT && Len(m) + r == Len(n) + s
    ensures m == n && r == s
  {
    SplitAt(Len(m), Len(n), r, s);
    Pow256Values();
    ToLeInjective(m, n, 8);
  }

  lemma BytesSplit(a: Bytes, b: Bytes, r: Bytes, s: Bytes)
    requires |a| < U64_LIMIT && |b| < U64_LIMIT && Len(|a|) + a + r == Len(|b|) + b + s
    ensures a == b && r == s
  {
    hide Len;
    Assoc(Len(|a|), a, r);
    Assoc(Len(|b|), b, s);
    LenSplit(|a|, |b|, a + r, b + s);
    SplitAt(a, b, r, s);
  }

  lemma IntSplit(x: int, y: int, n: nat, signed: bool, r: Bytes, s: Bytes)
    requires HasType(VInt(x), TInt(n, signed)) && HasType(VInt(y), TInt(n, signed))
    requires ToLe(Unsigned(x, n), n) + r == ToLe(Unsigned(y, n), n) + s
    ensures x == y && r == s
  {
    SplitAt(ToLe(Unsigned(x, n), n), ToLe(Unsigned(y, n), n), r, s);
    ToLeInjective(Unsigned(x, n), Unsigned(y, n), n);
  }

  lemma {:induction false} DigestsSplit(a: seq<Id>, b: seq<Id>, r: Bytes, s: Bytes)
    requires |a| == |b| && (forall d :: d in a ==> d < Pow256(32)) && (forall d :: d in b ==> d < Pow256(32))
    requires EncDigests(a) + r == EncDigests(b) + s
    ensures a == b && r == s
  {
    assert [] + r == r && [] + s == s;
    if a != [] {
      var x, y := ToBe(a[0], 32), ToBe(b[0], 32);
      var ra, rb := EncDigests(a[1..]) + r, EncDigests(b[1..]) + s;
      assert EncDigests(a) + r == (Len(32) + x) + ra && EncDigests(b) + s == (Len(32) + y) + rb;
      SplitAt(Len(32) + x, Len(32) + y, ra, rb);
      SplitAt(Len(32), Len(32), x, y);
      assert a[0] in a && b[0] in b;
      assert (forall d :: d in a[1..] ==> d in a) && (forall d :: d in b[1..] ==> d in b);
      FromToBe(a[0], 32);
      FromToBe(b[0], 32);
      DigestsSplit(a[1..], b[1..], r, s);
    }
  }

  ghost function DigestSet(m: set<Val>, u: Ty, hash: Bytes -> Id): set<Id>
    requires forall x :: x in m ==> HasType(x, u)
  {
    set x | x in m :: hash(Enc(x, u, hash))
  }

  /** There are no more digests than members. */
  lemma {:induction false} DigestCount(m: set<Val>, u: Ty, hash: Bytes -> Id)
    requires forall x :: x in m ==> HasType(x, u)
    ensures |DigestSet(m, u, hash)| <= |m|
    decreases m
  {
    if x :| x in m {
      DigestCount(m - {x}, u, hash);
      DigestSetAdd(m - {x}, x, u, hash);
      assert m - {x} + {x} == m;
      hide DigestSet, Enc;
      AtMostOneMore(DigestSet(m - {x}, u, hash), hash(Enc(x, u, hash)));
    } else {
      assert DigestSet(m, u, hash) == {};
    }
  }

  lemma DigestSetAdd(m: set<Val>, x: Val, u: Ty, hash: Bytes -> Id)
    requires HasType(x, u) && forall y :: y in m ==> HasType(y, u)
    ensures DigestSet(m + {x}, u, hash) == DigestSet(m, u, hash) + {hash(Enc(x, u, hash))}
  {
    hide Enc, HasType;
  }

  lemma AtMostOneMore(s: set<Id>, d: Id)
    ensures |s + {d}| <= |s| + 1
  {
    if d in s {
      assert s + {d} == s;
    }
  }

  lemma {:induction false} AscendingLength(s: seq<Id>)
    requires Ascending(s)
    ensures |s| == |Elems(s)|
  {
    if s != [] {
      var init, last := s[..|s| - 1], s[|s| - 1];
      AscendingLength(init);
      assert s == init + [last];
      assert Elems(s) == Elems(init) + {last};
      forall x | x in init ensures x != last {
        var i :| 0 <= i < |init| && init[i] == x;
        assert s[i] < s[|s| - 1];
      }
    }
  }

  lemma SetSplit(m: set<Val>, n: set<Val>, u: Ty, hash: Bytes -> Id, r: Bytes, s: Bytes)
    requires HasType(VSet(m), TSet(u)) && HasType(VSet(n), TSet(u)) && Digest32(hash)
    requires Enc(VSet(m), TSet(u), hash) + r == Enc(VSet(n), TSet(u), hash) + s
    ensures DigestSet(m, u, hash) == DigestSet(n, u, hash) && r == s
  {
    var a, b := SortIds(DigestSet(m, u, hash)), SortIds(DigestSet(n, u, hash));
    SetStream(m, u, hash);
    SetStream(n, u, hash);
    hide Enc, EncDigests, SortIds, DigestSet, Len;
    Assoc(Len(|a|), EncDigests(a), r);
    Assoc(Len(|b|), EncDigests(b), s);
    LenSplit(|a|, |b|, EncDigests(a) + r, EncDigests(b) + s);
    DigestsSplit(a, b, r, s);
    assert Elems(a) == Elems(b);
  }

  lemma DigestBound(m: set<Val>, u: Ty, hash: Bytes -> Id, d: Id)
    requires (forall x :: x in m ==> HasType(x, u)) && Digest32(hash) && d in DigestSet(m, u, hash)
    ensures d < Pow256(32)
  {
    hide Enc, Pow256, HasType;
  }

  /** The stream of a set is that of its sorted digests, of which there are few enough to count in eight bytes. */
  lemma SetStream(m: set<Val>, u: Ty, hash: Bytes -> Id)
    requires HasType(VSet(m), TSet(u)) && Digest32(hash)
    ensures var ds := SortIds(DigestSet(m, u, hash));
            && Enc(VSet(m), TSet(u), hash) == Len(|ds|) + EncDigests(ds)
            && |ds| < U64_LIMIT && forall d :: d in ds ==> d < Pow256(32)
  {
    var ds := SortIds(DigestSet(m, u, hash));
    DigestCount(m, u, hash);
    AscendingLength(ds);
    forall d | d in ds ensures d < Pow256(32) {
      assert d in Elems(ds);
      DigestBound(m, u, hash, d);
    }
  }

  /**
   Unique decodability: two values of one type whose streams agree, whatever follows them, are
   equal, as long as the digests of the set members involved do not collide.
   */
  lemma {:induction false} UniquelyDecodable(v: Val, w: Val, t: Ty, hash: Bytes -> Id, r: Bytes, s: Bytes)
    requires HasType(v, t) && HasType(w, t) && Digest32(hash)
    requires CollisionFree(hash, Digested(v, t, hash) + Digested(w, t, hash))
    requires Enc(v, t, hash) + r == Enc(w, t, hash) + s
    ensures v == w && r == s
    decreases v, 1
  {
    hide Len, EncItems, EncFields, EncDigests, SortIds, Digest32, ToLe;
    match t
    case TBool => SplitAt([if v.b then 1 else 0], [if w.b then 1 else 0], r, s);
    case TInt(n, signed) => IntSplit(v.x, w.x, n, signed, r, s);
    case TByteArray(_) => BytesSplit(v.bytes, w.bytes, r, s);
    case TStr => BytesSplit(v.bytes, w.bytes, r, s);
    case TSerde => BytesSplit(v.bytes, w.bytes, r, s);
    case TList(u) =>
      var x, y := EncItems(v.items, u, hash), EncItems(w.items, u, hash);
      Assoc(Len(|v.items|), x, r);
      Assoc(Len(|w.items|), y, s);
      LenSplit(|v.items|, |w.items|, x + r, y + s);
      ItemsDecodable(v.items, w.items, u, hash, r, s);
    case TOption(u) =>
      assert (Enc(v, t, hash) + r)[0] == (Enc(w, t, hash) + s)[0];
      if v.VNone? {
        SplitAt([0], [0], r, s);
      } else {
        var x, y := Enc(v.val, u, hash), Enc(w.val, u, hash);
        Assoc([1], x, r);
        Assoc([1], y, s);
        SplitAt([1], [1], x + r, y + s);
        UniquelyDecodable(v.val, w.val, u, hash, r, s);
      }
    case TSet(u) =>
      SetSplit(v.members, w.members, u, hash, r, s);
      MembersDecodable(v, w, u, hash);
    case TStruct(us) => FieldsDecodable(v.fields, w.fields, us, hash, r, s);
    case TEnum(vs) =>
      var i, j := ToLe(v.ordinal, 4), ToLe(w.ordinal, 4);
      var x, y := EncFields(v.fields, vs[v.ordinal], hash), EncFields(w.fields, vs[w.ordinal], hash);
      Assoc(i, x, r);
      Assoc(j, y, s);
      SplitAt(i, j, x + r, y + s);
      Pow256Values();
      ToLeInjective(v.ordinal, w.ordinal, 4);
      FieldsDecodable(v.fields, w.fields, vs[v.ordinal], hash, r, s);
  }

  lemma {:induction false} MembersDecodable(v: Val, w: Val, u: Ty, hash: Bytes -> Id)
    requires HasType(v, TSet(u)) && HasType(w, TSet(u)) && Digest32(hash)
    requires CollisionFree(hash, Digested(v, TSet(u), hash) + Digested(w, TSet(u), hash))
    requires DigestSet(v.members, u, hash) == DigestSet(w.members, u, hash)
    ensures v.members == w.members
    decreases v, 0
  {
    forall x, y | x in v.members && y in w.members && hash(Enc(x, u, hash)) == hash(Enc(y, u, hash)) ensures x == y {
      assert Enc(x, u, hash) in Digested(v, TSet(u), hash) && Enc(y, u, hash) in Digested(w, TSet(u), hash);
      assert Digested(x, u, hash) <= Digested(v, TSet(u), hash) && Digested(y, u, hash) <= Digested(w, TSet(u), hash);
      UniquelyDecodable(x, y, u, hash, [], []);
    }
    forall x | x in v.members ensures x in w.members {
      assert hash(Enc(x, u, hash)) in DigestSet(w.members, u, hash);
    }
    forall y | y in w.members ensures y in v.members {
      assert hash(Enc(y, u, hash)) in DigestSet(v.members, u, hash);
    }
  }

  lemma {:induction false} ItemsDecodable(a: seq<Val>, b: seq<Val>, u: Ty, hash: Bytes -> Id, r: Bytes, s: Bytes)
    requires |a| == |b| && (forall x :: x in a ==> HasType(x, u)) && (forall x :: x in b ==> HasType(x, u))
    requires Digest32(hash) && CollisionFree(hash, DigestedItems(a, u, hash) + DigestedItems(b, u, hash))
    requires EncItems(a, u, hash) + r == EncItems(b, u, hash) + s
    ensures a == b && r == s
    decreases a, 0
  {
    hide Enc, Digested, HasType;
    if a == [] {
      assert [] + r == r && [] + s == s;
    } else {
      var ra, rb := EncItems(a[1..], u, hash) + r, EncItems(b[1..], u, hash) + s;
      Assoc(Enc(a[0], u, hash), EncItems(a[1..], u, hash), r);
      Assoc(Enc(b[0], u, hash), EncItems(b[1..], u, hash), s);
      UniquelyDecodable(a[0], b[0], u, hash, ra, rb);
      ItemsDecodable(a[1..], b[1..], u, hash, r, s);
    }
  }

  lemma {:induction false} FieldsDecodable(a: seq<Val>, b: seq<Val>, us: seq<Ty>, hash: Bytes -> Id, r: Bytes, s: Bytes)
    requires HaveTypes(a, us) && HaveTypes(b, us) && Digest32(hash)
    requires CollisionFree(hash, DigestedFields(a, us, hash) + DigestedFields(b, us, hash))
    requires EncFields(a, us, hash) + r == EncFields(b, us, hash) + s
    ensures a == b && r == s
    decreases a, 0
  {
    hide Enc, Digested, HasType;
    if a == [] {
      assert [] + r == r && [] + s == s;
    } else {
      var ra, rb := EncFields(a[1..], us[1..], hash) + r, EncFields(b[1..], us[1..], hash) + s;
      Assoc(Enc(a[0], us[0], hash), EncFields(a[1..], us[1..], hash), r);
      Assoc(Enc(b[0], us[0], hash), EncFields(b[1..], us[1..], hash), s);
      UniquelyDecodable(a[0], b[0], us[0], hash, ra, rb);
      FieldsDecodable(a[1..], b[1..], us[1..], hash, r, s);
    }
  }

  // ---- feeding the hasher --------------------------------------------------

  class Hasher {
    var fed: Bytes

    constructor ()
      ensures fed == []
    {
      fed := [];
    }

    method Update(bytes: Bytes)
      modifies this
      ensures fed == old(fed) + bytes
    {
      fed := fed + bytes;
    }
  }

  lemma {:induction false} DigestedItem(xs: seq<Val>, u: Ty, hash: Bytes -> Id, i: nat)
    requires (forall x :: x in xs ==> HasType(x, u)) && i < |xs|
    ensures Digested(xs[i], u, hash) <= DigestedItems(xs, u, hash)
  {
    if i > 0 {
      DigestedItem(xs[1..], u, hash, i - 1);
    }
  }

  lemma {:induction false} FieldFacts(vs: seq<Val>, us: seq<Ty>, hash: Bytes -> Id, i: nat)
    requires HaveTypes(vs, us) && i < |vs|
    ensures |us| == |vs| && HasType(vs[i], us[i]) && HaveTypes(vs[i + 1..], us[i + 1..]) && HaveTypes(vs[i..], us[i..])
    ensures Digested(vs[i], us[i], hash) <= DigestedFields(vs, us, hash)
  {
    SameLength(vs, us);
    if i > 0 {
      FieldFacts(vs[1..], us[1..], hash, i - 1);
      assert vs[1..][i..] == vs[i + 1..] && us[1..][i..] == us[i + 1..];
      assert vs[1..][i - 1..] == vs[i..] && us[1..][i - 1..] == us[i..];
    } else {
      assert vs[0..] == vs && us[0..] == us;
    }
  }

  lemma {:induction false} SameLength(vs: seq<Val>, us: seq<Ty>)
    requires HaveTypes(vs, us)
    ensures |us| == |vs|
    decreases |vs|
  {
    if vs != [] {
      SameLength(vs[1..], us[1..]);
    }
  }

  /** Feed a value to the hasher, as its implementation of the trait does. */
  method HashUpdate(v: Val, t: Ty, hash: Bytes -> Id, state: Hasher)
    requires HasType(v, t) && Digest32(hash) && CollisionFree(hash, Digested(v, t, hash))
    modifies state
    ensures state.fed == old(state.fed) + Enc(v, t, hash)
    decreases v, 2
  {
    match t {
      case TBool => state.Update([if v.b then 1 else 0]);
      case TInt(n, _) => state.Update(ToLe(Unsigned(v.x, n), n));
      case TByteArray(n) => FeedBytes(v.bytes, state);
      case TStr => FeedBytes(v.bytes, state);
      case TSerde => FeedBytes(v.bytes, state);
      case TList(u) =>
        state.Update(Len(|v.items|));
        FeedItems(v, u, hash, state);
        Assoc(old(state.fed), Len(|v.items|), EncItems(v.items, u, hash));
      case TOption(u) =>
        if v.VNone? {
          state.Update([0]);
        } else {
          state.Update([1]);
          HashUpdate(v.val, u, hash, state);
          Assoc(old(state.fed), [1], Enc(v.val, u, hash));
        }
      case TSet(u) => FeedSet(v, u, hash, state);
      case TStruct(us) => FeedFields(v, v.fields, us, hash, state);
      case TEnum(vs) =>
        state.Update(ToLe(v.ordinal, 4));
        FeedFields(v, v.fields, vs[v.ordinal], hash, state);
        Assoc(old(state.fed), ToLe(v.ordinal, 4), EncFields(v.fields, vs[v.ordinal], hash));
    }
  }

  /** A length prefix and the bytes. */
  method FeedBytes(bytes: Bytes, state: Hasher)
    modifies state
    ensures state.fed == old(state.fed) + (Len(|bytes|) + bytes)
  {
    state.Update(Len(|bytes|));
    state.Update(bytes);
  }

  method FeedItems(v: Val, u: Ty, hash: Bytes -> Id, state: Hasher)
    requires v.VList? && forall x :: x in v.items ==> HasType(x, u)
    requires Digest32(hash) && CollisionFree(hash, DigestedItems(v.items, u, hash))
    modifies state
    ensures state.fed == old(state.fed) + EncItems(v.items, u, hash)
    decreases v, 1
  {
    ghost var goal := old(state.fed) + EncItems(v.items, u, hash);
    assert v.items[0..] == v.items;
    for i := 0 to |v.items|
      invariant state.fed + EncItems(v.items[i..], u, hash) == goal
    {
      DigestedItem(v.items, u, hash, i);
      ghost var before := state.fed;
      assert v.items[i..][1..] == v.items[i + 1..] && v.items[i..][0] == v.items[i];
      HashUpdate(v.items[i], u, hash, state);
      Assoc(before, Enc(v.items[i], u, hash), EncItems(v.items[i + 1..], u, hash));
    }
    assert state.fed + [] == state.fed;
  }

  /** The statements the derive macro generates: one update per field, in declaration order. */
  method FeedFields(v: Val, fields: seq<Val>, us: seq<Ty>, hash: Bytes -> Id, state: Hasher)
    requires (v.VStruct? && v.fields == fields) || (v.VEnum? && v.fields == fields)
    requires HaveTypes(fields, us) && Digest32(hash) && CollisionFree(hash, DigestedFields(fields, us, hash))
    modifies state
    ensures state.fed == old(state.fed) + EncFields(fields, us, hash)
    decreases v, 1
  {
    SameLength(fields, us);
    ghost var goal := old(state.fed) + EncFields(fields, us, hash);
    assert fields[0..] == fields && us[0..] == us;
    for i := 0 to |fields|
      invariant HaveTypes(fields[i..], us[i..]) && state.fed + EncFields(fields[i..], us[i..], hash) == goal
    {
      FieldFacts(fields, us, hash, i);
      ghost var before := state.fed;
      assert fields[i..][1..] == fields[i + 1..] && us[i..][1..] == us[i + 1..];
      HashUpdate(fields[i], us[i], hash, state);
      Assoc(before, Enc(fields[i], us[i], hash), EncFields(fields[i + 1..], us[i + 1..], hash));
    }
    assert state.fed + [] == state.fed;
  }

  /** The members' own digests, in whatever order the set is iterated, then sorted. */
  method FeedSet(v: Val, u: Ty, hash: Bytes -> Id, state: Hasher)
    requires HasType(v, TSet(u)) && Digest32(hash) && CollisionFree(hash, Digested(v, TSet(u), hash))
    modifies state
    ensures state.fed == old(state.fed) + Enc(v, TSet(u), hash)
    decreases v, 1
  {
    hide Enc, Digested, DigestSet, CollisionFree, SortIds, Feeding, HasType;
    SetMembers(v, u, hash);
    FeedingStart(v, u, hash);
    var digests: seq<Id> := [];
    var rest := v.members;
    while rest != {}
      invariant rest <= v.members && state.fed == old(state.fed) && Feeding(v, u, hash, rest, digests)
      decreases rest
    {
      var x :| x in rest;
      var one := new Hasher();
      HashUpdate(x, u, hash, one);
      assert [] + Enc(x, u, hash) == Enc(x, u, hash);
      FeedingStep(v, u, hash, rest, digests, x);
      rest := rest - {x};
      digests := digests + [hash(one.fed)];
    }
    FeedingEnd(v, u, hash, digests);
    var sorted := SortDigests(digests);
    SetIsSortedDigests(v, u, hash, sorted);
    FeedDigests(sorted, state, Len(|sorted|));
  }

  /** The digests of all members but these have been collected, each once. */
  ghost predicate Feeding(v: Val, u: Ty, hash: Bytes -> Id, rest: set<Val>, digests: seq<Id>)
    requires HasType(v, TSet(u)) && rest <= v.members
  {
    Elems(digests) == DigestSet(v.members - rest, u, hash) && NoDup(digests)
  }

  lemma FeedingStart(v: Val, u: Ty, hash: Bytes -> Id)
    requires HasType(v, TSet(u))
    ensures Feeding(v, u, hash, v.members, [])
  {
    assert v.members - v.members == {} && Elems<Id>([]) == {};
  }

  lemma FeedingStep(v: Val, u: Ty, hash: Bytes -> Id, rest: set<Val>, digests: seq<Id>, x: Val)
    requires HasType(v, TSet(u)) && Digest32(hash) && CollisionFree(hash, Digested(v, TSet(u), hash))
    requires rest <= v.members && Feeding(v, u, hash, rest, digests) && x in rest
    ensures HasType(x, u) && Feeding(v, u, hash, rest - {x}, digests + [hash(Enc(x, u, hash))])
  {
    assert HasType(x, u);
    hide Enc, Digested, DigestSet, CollisionFree;
    DigestPush(v.members - rest, x, u, hash, digests);
    NewDigest(v, v.members - rest, x, u, hash);
    StillNoDup(digests, hash(Enc(x, u, hash)));
    assert v.members - (rest - {x}) == (v.members - rest) + {x};
  }

  lemma FeedingEnd(v: Val, u: Ty, hash: Bytes -> Id, digests: seq<Id>)
    requires HasType(v, TSet(u)) && Feeding(v, u, hash, {}, digests)
    ensures NoDup(digests) && Elems(digests) == DigestSet(v.members, u, hash)
  {
    assert v.members - {} == v.members;
  }

  /** The members have their type, and what is digested inside them is digested inside the set. */
  lemma SetMembers(v: Val, u: Ty, hash: Bytes -> Id)
    requires HasType(v, TSet(u)) && CollisionFree(hash, Digested(v, TSet(u), hash))
    ensures v.VSet?
    ensures forall x :: x in v.members ==> HasType(x, u) && CollisionFree(hash, Digested(x, u, hash))
  {
    hide Enc;
    MemberDigested(v, u, hash);
  }

  lemma SetIsSortedDigests(v: Val, u: Ty, hash: Bytes -> Id, sorted: seq<Id>)
    requires HasType(v, TSet(u)) && Ascending(sorted) && Elems(sorted) == DigestSet(v.members, u, hash)
    ensures Enc(v, TSet(u), hash) == Len(|sorted|) + EncDigests(sorted)
  {
    hide EncDigests, Len;
    AscendingUnique(sorted, SortIds(DigestSet(v.members, u, hash)));
  }

  /** The streams digested inside a member are digested inside the set. */
  lemma MemberDigested(v: Val, u: Ty, hash: Bytes -> Id)
    requires HasType(v, TSet(u))
    ensures forall x :: x in v.members ==> Digested(x, u, hash) <= Digested(v, TSet(u), hash)
  {
    hide Enc, HasType;
  }

  lemma StillNoDup(ds: seq<Id>, d: Id)
    requires NoDup(ds) && d !in Elems(ds)
    ensures NoDup(ds + [d])
  {
    assert forall i :: 0 <= i < |ds| ==> ds[i] in Elems(ds);
  }

  /** The library sort of a vector without repetitions. */
  method SortDigests(ds: seq<Id>) returns (r: seq<Id>)
    requires NoDup(ds)
    ensures Ascending(r) && Elems(r) == Elems(ds) && |r| == |ds|
  {
    r := SortIds(Elems(ds));
    AscendingLength(r);
    NoDupSize(ds);
  }

  /** Without collisions a further member brings a further digest. */
  lemma NewDigest(v: Val, m: set<Val>, x: Val, u: Ty, hash: Bytes -> Id)
    requires HasType(v, TSet(u)) && Digest32(hash) && CollisionFree(hash, Digested(v, TSet(u), hash))
    requires m <= v.members && x in v.members && x !in m
    ensures hash(Enc(x, u, hash)) !in DigestSet(m, u, hash)
  {
    var inside := Digested(v, TSet(u), hash);
    forall y | y in m ensures hash(Enc(y, u, hash)) != hash(Enc(x, u, hash)) {
      assert Enc(x, u, hash) in inside && Enc(y, u, hash) in inside;
      if hash(Enc(y, u, hash)) == hash(Enc(x, u, hash)) {
        assert Digested(x, u, hash) <= inside && Digested(y, u, hash) <= inside;
        UniquelyDecodable(x, y, u, hash, [], []);
      }
    }
  }

  lemma DigestPush(m: set<Val>, x: Val, u: Ty, hash: Bytes -> Id, digests: seq<Id>)
    requires HasType(x, u) && (forall y :: y in m ==> HasType(y, u)) && Elems(digests) == DigestSet(m, u, hash)
    ensures Elems(digests + [hash(Enc(x, u, hash))]) == DigestSet(m + {x}, u, hash)
  {
    DigestSetAdd(m, x, u, hash);
    hide DigestSet, Enc;
    var d := hash(Enc(x, u, hash));
    assert forall y :: y in digests + [d] <==> y in digests || y == d;
  }

  method FeedDigests(ds: seq<Id>, state: Hasher, count: Bytes)
    modifies state
    ensures state.fed == old(state.fed) + (count + EncDigests(ds))
  {
    hide EncDigests;
    state.Update(count);
    ghost var goal := old(state.fed) + (count + EncDigests(ds));
    Assoc(old(state.fed), count, EncDigests(ds));
    assert ds[0..] == ds;
    for i := 0 to |ds|
      invariant state.fed + EncDigests(ds[i..]) == goal
    {
      ghost var before := state.fed;
      state.Update(Len(32));
      state.Update(ToBe(ds[i], 32));
      OneDigestFed(before, ds, i);
    }
    AllDigestsFed(state.fed, ds);
  }

  lemma OneDigestFed(before: Bytes, ds: seq<Id>, i: nat)
    requires i < |ds|
    ensures before + Len(32) + ToBe(ds[i], 32) + EncDigests(ds[i + 1..]) == before + EncDigests(ds[i..])
  {
    assert ds[i..][1..] == ds[i + 1..] && ds[i..][0] == ds[i];
    var n, d, rest := Len(32), ToBe(ds[i], 32), EncDigests(ds[i + 1..]);
    assert EncDigests(ds[i..]) == n + d + rest;
    hide Len, ToBe, EncDigests;
    Assoc(before, n + d, rest);
    Assoc(before, n, d);
  }

  lemma AllDigestsFed(fed: Bytes, ds: seq<Id>)
    ensures fed + EncDigests(ds[|ds|..]) == fed
  {
    assert ds[|ds|..] == [];
    assert fed + [] == fed;
  }
}
