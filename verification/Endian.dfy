/** Fixed-width numbers as byte strings. */
module Endian {
  import opened Base

  function Pow256(n: nat): nat {
    if n == 0 then 1 else 256 * Pow256(n - 1)
  }

  function FromBe(s: Bytes): nat {
    if s == [] then 0 else 256 * FromBe(s[..|s| - 1]) + s[|s| - 1] as nat
  }

  function ToBe(x: nat, n: nat): (s: Bytes)
    ensures |s| == n
  {
    if n == 0 then [] else ToBe(x / 256, n - 1) + [(x % 256) as byte]
  }

  lemma {:induction false} FromToBe(x: nat, n: nat)
    requires x < Pow256(n)
    ensures FromBe(ToBe(x, n)) == x
  {
    if n > 0 {
      FromToBe(x / 256, n - 1);
      assert ToBe(x, n)[..n - 1] == ToBe(x / 256, n - 1);
    }
  }

  lemma {:induction false} ToFromBe(s: Bytes)
    ensures FromBe(s) < Pow256(|s|) && ToBe(FromBe(s), |s|) == s
  {
    if s != [] {
      var init := s[..|s| - 1];
      ToFromBe(init);
      assert FromBe(s) / 256 == FromBe(init);
      assert s == init + [s[|s| - 1]];
    }
  }

  lemma Pow256Values()
    ensures Pow256(4) == 0x1_0000_0000 && Pow256(8) == 0x1_0000_0000_0000_0000
  {
    assert Pow256(2) == 0x1_0000;
    assert Pow256(4) == 0x1_0000_0000;
    assert Pow256(6) == 0x1_0000_0000_0000;
  }

  /** Little-endian. */
  function ToLe(x: nat, n: nat): (s: Bytes)
    ensures |s| == n
  {
    if n == 0 then [] else [(x % 256) as byte] + ToLe(x / 256, n - 1)
  }

  lemma {:induction false} ToLeInjective(x: nat, y: nat, n: nat)
    requires x < Pow256(n) && y < Pow256(n) && ToLe(x, n) == ToLe(y, n)
    ensures x == y
  {
    if n > 0 {
      assert ToLe(x, n)[0] == ToLe(y, n)[0];
      assert ToLe(x, n)[1..] == ToLe(x / 256, n - 1) && ToLe(y, n)[1..] == ToLe(y / 256, n - 1);
      ToLeInjective(x / 256, y / 256, n - 1);
    }
  }

  // ---- the bytes of a number ------------------------------------------------

  lemma AtLeastOnce(k: nat, d: nat)
    requires k > 0
    ensures k * d >= d
  {}

  lemma Difference(a: nat, b: nat, d: nat)
    requires a >= b
    ensures a * d - b * d == (a - b) * d
  {}

  lemma OneQuotient(p: nat, s: nat, q: nat, r: nat, d: nat)
    requires p * d + s == q * d + r && s < d && r < d
    ensures p == q && r == s
  {
    if p < q {
      Difference(q, p, d);
      AtLeastOnce(q - p, d);
    } else if p > q {
      Difference(p, q, d);
      AtLeastOnce(p - q, d);
    }
  }

  lemma DivUnique(x: nat, d: nat, q: nat, r: nat)
    requires 0 <= r < d && x == q * d + r
    ensures x / d == q && x % d == r
  {
    OneQuotient(x / d, x % d, q, r, d);
  }

  /** Dividing by 256 first. */
  lemma DivDiv(x: nat, p: nat)
    requires p > 0
    ensures x / (256 * p) == (x / 256) / p
  {
    var q, r := (x / 256) / p, (x / 256) % p;
    assert x / 256 == q * p + r;
    Scaled(q, p);
    assert x == q * (256 * p) + (256 * r + x % 256);
    DivUnique(x, 256 * p, q, 256 * r + x % 256);
  }

  lemma Scaled(q: nat, p: nat)
    ensures q * (256 * p) == 256 * (q * p)
  {}

  lemma {:induction false} Pow256Positive(n: nat)
    ensures Pow256(n) > 0
  {
    if n > 0 {
      Pow256Positive(n - 1);
    }
  }

  /** Network byte order: the most significant byte comes first. */
  lemma {:induction false} ToBeAt(x: nat, n: nat, i: nat)
    requires i < n
    ensures Pow256(n - 1 - i) > 0 && ToBe(x, n)[i] as nat == (x / Pow256(n - 1 - i)) % 256
  {
    Pow256Positive(n - 1 - i);
    if i < n - 1 {
      ToBeAt(x / 256, n - 1, i);
      Pow256Positive(n - 2 - i);
      DivDiv(x, Pow256(n - 2 - i));
      assert ToBe(x, n)[i] == ToBe(x / 256, n - 1)[i];
    } else {
      assert Pow256(0) == 1;
    }
  }

  /** Little-endian: the least significant byte comes first. */
  lemma {:induction false} ToLeAt(x: nat, n: nat, i: nat)
    requires i < n
    ensures Pow256(i) > 0 && ToLe(x, n)[i] as nat == (x / Pow256(i)) % 256
  {
    Pow256Positive(i);
    if i > 0 {
      ToLeAt(x / 256, n - 1, i - 1);
      Pow256Positive(i - 1);
      DivDiv(x, Pow256(i - 1));
      assert ToLe(x, n)[i] == ToLe(x / 256, n - 1)[i - 1];
    } else {
      assert Pow256(0) == 1;
    }
  }
}
