/**
 What the bits of EWAH words are: the 64 bits of a word spell its value, lowest first, and packing runs and
 literals into words and expanding the words gives the bits back.
 */
module EwahBits {
  import opened Endian
  import opened Ewah

  /** The number spelled by bits, lowest first. */
  function Value(bits: seq<bool>): nat {
    if bits == [] then 0 else (if bits[0] then 1 else 0) + 2 * Value(bits[1..])
  }

  // ---- arithmetic ----------------------------------------------------------

  lemma Doubled(p: nat, v: nat)
    ensures 2 * (p * v) == (2 * p) * v
  {}

  /** Halving before dividing. */
  lemma HalfDiv(w: nat, p: nat)
    requires p > 0
    ensures w / (2 * p) == (w / 2) / p && w % (2 * p) == w % 2 + 2 * ((w / 2) % p)
  {
    var q, r := (w / 2) / p, (w / 2) % p;
    assert w / 2 == q * p + r;
    Doubled(q, p);
    assert q * (2 * p) == (2 * q) * p;
    assert w == q * (2 * p) + (w % 2 + 2 * r);
    DivUnique(w, 2 * p, q, w % 2 + 2 * r);
  }

  lemma {:induction false} Pow2Add(a: nat, b: nat)
    ensures Pow2(a + b) == Pow2(a) * Pow2(b)
  {
    if a > 0 {
      Pow2Add(a - 1, b);
    }
  }

  lemma Pow2Numbers()
    ensures Pow2(32) == 0x1_0000_0000 && Pow2(64) == 0x1_0000_0000_0000_0000
  {
    assert Pow2(4) == 16;
    Pow2Add(4, 4);
    Pow2Add(8, 8);
    Pow2Add(16, 16);
    Pow2Add(32, 32);
  }

  // ---- the bits of a word --------------------------------------------------

  predicate Bit(w: nat, i: nat) {
    Pow2Positive(i);
    (w / Pow2(i)) % 2 == 1
  }

  function LowBits(w: nat, n: nat): seq<bool> {
    seq(n, i requires 0 <= i < n => Bit(w, i))
  }

  lemma BitOfHalf(w: nat, i: nat)
    ensures Bit(w, i + 1) == Bit(w / 2, i)
  {
    Pow2Positive(i);
    HalfDiv(w, Pow2(i));
  }

  lemma LowBitsCons(w: nat, n: nat)
    requires n > 0
    ensures LowBits(w, n) == [w % 2 == 1] + LowBits(w / 2, n - 1)
  {
    assert Pow2(0) == 1;
    var bits := [w % 2 == 1] + LowBits(w / 2, n - 1);
    forall i | 0 <= i < n ensures LowBits(w, n)[i] == bits[i] {
      if i > 0 {
        BitOfHalf(w, i - 1);
      }
    }
  }

  lemma {:induction false} LowBitsSpell(w: nat, n: nat)
    ensures Pow2(n) > 0 && Value(LowBits(w, n)) == w % Pow2(n)
  {
    Pow2Positive(n);
    if n > 0 {
      LowBitsSpell(w / 2, n - 1);
      LowBitsCons(w, n);
      HalfDiv(w, Pow2(n - 1));
    }
  }

  lemma WordIsLowBits(w: U64)
    ensures WordBits(w) == LowBits(w, 64)
  {}

  /** The 64 bits of a word, lowest first, spell the word. */
  lemma BitsSpellWord(w: U64)
    ensures |WordBits(w)| == 64 && Value(WordBits(w)) == w
  {
    LowBitsSpell(w, 64);
    Pow2Numbers();
    WordIsLowBits(w);
  }

  lemma {:induction false} ValueBound(bits: seq<bool>)
    ensures Value(bits) < Pow2(|bits|)
  {
    if bits != [] {
      ValueBound(bits[1..]);
    }
  }

  lemma {:induction false} BitsOfValue(bits: seq<bool>)
    ensures LowBits(Value(bits), |bits|) == bits
  {
    if bits != [] {
      BitsOfValue(bits[1..]);
      LowBitsCons(Value(bits), |bits|);
      assert Value(bits) / 2 == Value(bits[1..]);
      assert bits == [bits[0]] + bits[1..];
    }
  }

  /** Any 64 bits are the bits of the word they spell. */
  lemma WordOfBits(bits: seq<bool>)
    requires |bits| == 64
    ensures Value(bits) < 0x1_0000_0000_0000_0000 && WordBits(Value(bits)) == bits
  {
    ValueBound(bits);
    Pow2Numbers();
    BitsOfValue(bits);
    WordIsLowBits(Value(bits));
  }

  lemma {:induction false} ValueConcat(a: seq<bool>, b: seq<bool>)
    ensures Value(a + b) == Value(a) + Pow2(|a|) * Value(b)
  {
    if a == [] {
      assert a + b == b;
    } else {
      assert (a + b)[1..] == a[1..] + b;
      ValueConcat(a[1..], b);
      assert Pow2(|a|) == 2 * Pow2(|a| - 1);
      assert Value(a + b) == (if a[0] then 1 else 0) + 2 * Value(a[1..] + b);
      assert Value(a) == (if a[0] then 1 else 0) + 2 * Value(a[1..]);
      hide Value, Pow2;
      Doubled(Pow2(|a| - 1), Value(b));
    }
  }

  /** A run word read bit by bit: the run bit, 32 bits of run length in words, 31 bits of literal count. */
  lemma RunWordBits(w: U64)
    ensures |WordBits(w)| == 64 && RunBit(w) == WordBits(w)[0]
    ensures RunLen(w) == Value(WordBits(w)[1..33]) && LiteralWords(w) == Value(WordBits(w)[33..])
    ensures RunLenBits(w) == 64 * Value(WordBits(w)[1..33])
  {
    BitsSpellWord(w);
    var bits := WordBits(w);
    hide WordBits, Pow2, BitSet;
    ValueSplits(bits);
    ValueBound(bits[1..33]);
    Pow2Numbers();
    hide Value;
    FieldsOf(w, if bits[0] then 1 else 0, Value(bits[1..33]), Value(bits[33..]));
  }

  lemma ValueSplits(bits: seq<bool>)
    requires |bits| == 64
    ensures Value(bits) == (if bits[0] then 1 else 0) + 2 * (Value(bits[1..33]) + 0x1_0000_0000 * Value(bits[33..]))
  {
    var mid, top := bits[1..33], bits[33..];
    assert bits[1..] == mid + top;
    ValueConcat(mid, top);
    Pow2Numbers();
  }

  lemma FieldsOf(w: nat, low: nat, mid: nat, top: nat)
    requires low <= 1 && mid < 0x1_0000_0000 && w == low + 2 * (mid + 0x1_0000_0000 * top)
    ensures w % 2 == low && (w / 2) % 0x1_0000_0000 == mid && w / 0x2_0000_0000 == top
  {
    assert w / 2 == mid + 0x1_0000_0000 * top;
  }

  // ---- packing and expanding -----------------------------------------------

  /** A run of one bit, then literal words given by their bits. */
  datatype Segment = Segment(bit: bool, len: U32, literals: seq<seq<bool>>)

  ghost predicate Fits(s: Segment) {
    |s.literals| < 0x8000_0000 && forall l :: l in s.literals ==> |l| == 64
  }

  /** The bits a list of segments stands for. */
  ghost function Unpacked(segments: seq<Segment>): seq<bool> {
    if segments == [] then [] else
      seq(64 * segments[0].len, _ => segments[0].bit) + Joined(segments[0].literals) + Unpacked(segments[1..])
  }

  ghost function Joined(literals: seq<seq<bool>>): seq<bool> {
    if literals == [] then [] else literals[0] + Joined(literals[1..])
  }

  /** The words of a list of segments: a run word and the literals, each spelled by its bits. */
  ghost function Packed(segments: seq<Segment>): seq<U64>
    requires forall s :: s in segments ==> Fits(s)
  {
    if segments == [] then [] else
      assert segments[0] in segments && Fits(segments[0]);
      [RunWord(segments[0].bit, segments[0].len, |segments[0].literals|)]
      + Words(segments[0].literals) + Packed(segments[1..])
  }

  ghost function Words(literals: seq<seq<bool>>): (words: seq<U64>)
    requires forall l :: l in literals ==> |l| == 64
    ensures |words| == |literals|
  {
    if literals == [] then [] else
      assert literals[0] in literals;
      WordOfBits(literals[0]);
      [Value(literals[0])] + Words(literals[1..])
  }

  lemma {:induction false} LiteralsExpand(literals: seq<seq<bool>>, rest: seq<U64>)
    requires forall l :: l in literals ==> |l| == 64
    ensures Expand(Words(literals) + rest, |literals|) == Joined(literals) + Expand(rest, 0)
  {
    var words := Words(literals) + rest;
    if literals == [] {
      assert words == rest;
      assert Joined(literals) + Expand(rest, 0) == Expand(rest, 0);
    } else {
      assert literals[0] in literals;
      WordOfBits(literals[0]);
      assert words[0] == Value(literals[0]) && words[1..] == Words(literals[1..]) + rest;
      LiteralsExpand(literals[1..], rest);
    }
  }

  /** Packing then expanding gives the bits back. */
  lemma {:induction false} ExpandPacked(segments: seq<Segment>)
    requires forall s :: s in segments ==> Fits(s)
    ensures Expand(Packed(segments), 0) == Unpacked(segments)
  {
    hide Expand, RunWord, Joined, Words, RunBit, RunLen, LiteralWords;
    if segments == [] {
      NothingExpands();
    } else {
      var s, rest := segments[0], Packed(segments[1..]);
      assert s in segments && Fits(s);
      var words := Packed(segments);
      assert words[0] == RunWord(s.bit, s.len, |s.literals|) && words[1..] == Words(s.literals) + rest;
      RunWordFields(s.bit, s.len, |s.literals|);
      LiteralsExpand(s.literals, rest);
      ExpandPacked(segments[1..]);
      OneRunExpands(words, s);
    }
  }

  lemma NothingExpands()
    ensures Expand([], 0) == []
  {}

  lemma OneRunExpands(words: seq<U64>, s: Segment)
    requires words != [] && RunBit(words[0]) == s.bit && RunLen(words[0]) == s.len
    ensures Expand(words, 0) == seq(64 * s.len, _ => s.bit) + Expand(words[1..], LiteralWords(words[0]))
  {
    assert seq(RunLenBits(words[0]), _ => RunBit(words[0])) == seq(64 * s.len, _ => s.bit);
  }
}
