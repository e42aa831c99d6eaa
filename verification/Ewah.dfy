/** EWAH bitmaps: decoding and iterating over the set bits (`crates/arc-algebra/src/ewah.rs`). */
module Ewah {
  import opened Base
  import opened Endian

  type U32 = x: nat | x < 0x1_0000_0000
  type U64 = x: nat | x < 0x1_0000_0000_0000_0000

  datatype Bitmap = Bitmap(numBits: U32, words: seq<U64>, rlw: U32)

  datatype DecodeError = UnexpectedEof(context: string) | LengthOverflow

  datatype Decoded<+T> = Ok(value: T, rest: Bytes) | Err(error: DecodeError)

  function Min(a: nat, b: nat): nat {
    if a < b then a else b
  }

  // ---- the serialised layout -----------------------------------------------

  /** The 64-bit words, each in network byte order. */
  function EncodeWords(words: seq<U64>): (s: Bytes)
    ensures |s| == 8 * |words|
  {
    if words == [] then [] else EncodeWords(words[..|words| - 1]) + ToBe(words[|words| - 1], 8)
  }

  /** Appendix A of gitformat-bitmap: bit count, word count, words, and the position of the last run word. */
  function Encode(b: Bitmap): Bytes
    requires |b.words| < 0x1_0000_0000
  {
    ToBe(b.numBits, 4) + ToBe(|b.words|, 4) + EncodeWords(b.words) + ToBe(b.rlw, 4)
  }

  function ReadU32(input: Bytes, context: string): (r: Decoded<U32>)
    ensures r.Ok? ==> input == ToBe(r.value, 4) + r.rest
    ensures r.Err? <==> |input| < 4
  {
    if |input| < 4 then Err(UnexpectedEof(context)) else
      Pow256Values();
      ToFromBe(input[..4]);
      Ok(FromBe(input[..4]), input[4..])
  }

  lemma ReadBack(x: U32, rest: Bytes, context: string)
    ensures ReadU32(ToBe(x, 4) + rest, context) == Ok(x, rest)
  {
    Pow256Values();
    FromToBe(x, 4);
    assert (ToBe(x, 4) + rest)[..4] == ToBe(x, 4);
  }

  /** The words held by a payload whose length is a multiple of eight. */
  function DecodeWords(s: Bytes): (words: seq<U64>)
    requires |s| % 8 == 0
    ensures |words| == |s| / 8 && EncodeWords(words) == s
  {
    if s == [] then [] else
      var init, last := s[..|s| - 8], s[|s| - 8..];
      Pow256Values();
      ToFromBe(last);
      var words := DecodeWords(init) + [FromBe(last)];
      assert words[..|words| - 1] == DecodeWords(init);
      words
  }

  lemma {:induction false} DecodeEncodeWords(words: seq<U64>)
    ensures DecodeWords(EncodeWords(words)) == words
  {
    if words != [] {
      var init, last := words[..|words| - 1], words[|words| - 1];
      var s := EncodeWords(words);
      assert s[..|s| - 8] == EncodeWords(init) && s[|s| - 8..] == ToBe(last, 8);
      DecodeEncodeWords(init);
      Pow256Values();
      FromToBe(last, 8);
    }
  }

  /** The decoding, read as one expression; `usizeMax` is the largest platform word. */
  function Decoding(input: Bytes, usizeMax: nat): Decoded<Bitmap> {
    match ReadU32(input, "num_bits")
    case Err(e) => Err(e)
    case Ok(numBits, rest1) =>
      match ReadU32(rest1, "word_len")
      case Err(e) => Err(e)
      case Ok(wordLen, rest2) =>
        if 8 * wordLen > usizeMax then Err(LengthOverflow)
        else if |rest2| < 8 * wordLen then Err(UnexpectedEof("word payload"))
        else
          match ReadU32(rest2[8 * wordLen..], "rlw")
          case Err(e) => Err(e)
          case Ok(rlw, rest3) => Ok(Bitmap(numBits, DecodeWords(rest2[..8 * wordLen]), rlw), rest3)
  }

  /** The payload, eight bytes at a time. */
  method ReadWords(payload: Bytes, wordLen: nat) returns (words: seq<U64>)
    requires |payload| == 8 * wordLen
    ensures words == DecodeWords(payload)
  {
    words := [];
    for i := 0 to wordLen
      invariant words == DecodeWords(payload[..8 * i])
    {
      var chunk := payload[8 * i..8 * i + 8];
      NextWord(payload, i);
      Pow256Values();
      ToFromBe(chunk);
      words := words + [FromBe(chunk)];
    }
    assert payload[..8 * wordLen] == payload;
  }

  lemma NextWord(payload: Bytes, i: nat)
    requires 8 * i + 8 <= |payload|
    ensures FromBe(payload[8 * i..8 * i + 8]) < 0x1_0000_0000_0000_0000
    ensures DecodeWords(payload[..8 * (i + 1)]) == DecodeWords(payload[..8 * i]) + [FromBe(payload[8 * i..8 * i + 8])]
  {
    var more := payload[..8 * (i + 1)];
    Pow256Values();
    ToFromBe(payload[8 * i..8 * i + 8]);
    assert more[..8 * i] == payload[..8 * i];
    assert more[8 * i..] == payload[8 * i..8 * i + 8];
  }

  /** Decode one bitmap from the front of the input; the bytes after it are returned untouched. */
  method Decode(input: Bytes, usizeMax: nat) returns (r: Decoded<Bitmap>)
    ensures r == Decoding(input, usizeMax)
  {
    var first := ReadU32(input, "num_bits");
    if first.Err? {
      return Err(first.error);
    }
    var second := ReadU32(first.rest, "word_len");
    if second.Err? {
      return Err(second.error);
    }
    var wordLen: nat := second.value;
    if wordLen > usizeMax {
      return Err(LengthOverflow);
    }
    if wordLen * 8 > usizeMax {
      return Err(LengthOverflow);
    }
    var bytesLen := wordLen * 8;
    if |second.rest| < bytesLen {
      return Err(UnexpectedEof("word payload"));
    }
    var payload, tail := second.rest[..bytesLen], second.rest[bytesLen..];
    var words := ReadWords(payload, wordLen);
    var third := ReadU32(tail, "rlw");
    if third.Err? {
      return Err(third.error);
    }
    return Ok(Bitmap(first.value, words, third.value), third.rest);
  }

  /** Where each part of a bitmap lies in the input, and each way the input can be too short. */
  lemma DecodingIs(input: Bytes, usizeMax: nat)
    ensures |input| < 4 ==> Decoding(input, usizeMax) == Err(UnexpectedEof("num_bits"))
    ensures 4 <= |input| < 8 ==> Decoding(input, usizeMax) == Err(UnexpectedEof("word_len"))
    ensures |input| >= 8 ==>
              var n := FromBe(input[4..8]);
              && (8 * n > usizeMax ==> Decoding(input, usizeMax) == Err(LengthOverflow))
              && (8 * n <= usizeMax && |input| < 8 + 8 * n ==>
                    Decoding(input, usizeMax) == Err(UnexpectedEof("word payload")))
              && (8 * n <= usizeMax && 8 + 8 * n <= |input| < 12 + 8 * n ==>
                    Decoding(input, usizeMax) == Err(UnexpectedEof("rlw")))
              && (8 * n <= usizeMax && |input| >= 12 + 8 * n ==> DecodedAs(input, n, Decoding(input, usizeMax)))
  {
    hide FromBe, ToBe, DecodeWords;
    if |input| >= 8 {
      assert input[4..][..4] == input[4..8] && input[4..][4..] == input[8..];
      var n := ReadU32(input[4..], "word_len").value;
      assert n == FromBe(input[4..8]);
      if 8 * n <= usizeMax && |input| >= 12 + 8 * n {
        PartsDecoded(input, n);
      }
    }
  }

  lemma PartsDecoded(input: Bytes, n: nat)
    requires |input| >= 12 + 8 * n
    ensures var s, tail := input[8..][..8 * n], input[8..][8 * n..];
            && |DecodeWords(s)| == n && tail[..4] == input[8 + 8 * n..12 + 8 * n] && tail[4..] == input[12 + 8 * n..]
            && forall i :: 0 <= i < n ==> DecodeWords(s)[i] == FromBe(input[8 + 8 * i..16 + 8 * i])
  {
    hide DecodeWords, FromBe, EncodeWords, ToBe;
    var s := input[8..][..8 * n];
    AfterWords(input, n);
    forall i | 0 <= i < n ensures DecodeWords(s)[i] == FromBe(input[8 + 8 * i..16 + 8 * i]) {
      DecodedWordAt(s, i);
      assert s[8 * i..8 * i + 8] == input[8 + 8 * i..16 + 8 * i];
    }
  }

  lemma AfterWords(input: Bytes, n: nat)
    requires |input| >= 12 + 8 * n
    ensures var tail := input[8..][8 * n..];
            tail[..4] == input[8 + 8 * n..12 + 8 * n] && tail[4..] == input[12 + 8 * n..]
  {}

  /** The bit count, the words, the position and the tail, each read in network byte order from its place. */
  ghost predicate DecodedAs(input: Bytes, n: nat, r: Decoded<Bitmap>)
    requires |input| >= 12 + 8 * n
  {
    && r.Ok? && r.value.numBits == FromBe(input[..4]) && |r.value.words| == n
    && (forall i :: 0 <= i < n ==> r.value.words[i] == FromBe(input[8 + 8 * i..16 + 8 * i]))
    && r.value.rlw == FromBe(input[8 + 8 * n..12 + 8 * n]) && r.rest == input[12 + 8 * n..]
  }

  lemma {:induction false} DecodedWordAt(s: Bytes, i: nat)
    requires |s| % 8 == 0 && 8 * i + 8 <= |s|
    ensures DecodeWords(s)[i] == FromBe(s[8 * i..8 * i + 8])
  {
    hide DecodeWords, FromBe, EncodeWords, ToBe;
    var init := s[..|s| - 8];
    LastWord(s);
    if 8 * i + 8 < |s| {
      DecodedWordAt(init, i);
      assert init[8 * i..8 * i + 8] == s[8 * i..8 * i + 8];
    } else {
      assert i == |s| / 8 - 1 && s[8 * i..8 * i + 8] == s[|s| - 8..];
    }
  }

  lemma LastWord(s: Bytes)
    requires |s| % 8 == 0 && |s| >= 8
    ensures FromBe(s[|s| - 8..]) < 0x1_0000_0000_0000_0000
    ensures DecodeWords(s) == DecodeWords(s[..|s| - 8]) + [FromBe(s[|s| - 8..])]
  {
    Pow256Values();
    ToFromBe(s[|s| - 8..]);
    hide EncodeWords, FromBe, ToBe;
  }

  /** Decoding inverts the layout, whatever follows it. */
  lemma DecodeEncode(b: Bitmap, tail: Bytes, usizeMax: nat)
    requires |b.words| < 0x1_0000_0000 && 8 * |b.words| <= usizeMax
    ensures Decoding(Encode(b) + tail, usizeMax) == Ok(b, tail)
  {
    var n, ws, r := |b.words|, EncodeWords(b.words), ToBe(b.rlw, 4);
    var rest2 := ws + (r + tail);
    var rest1 := ToBe(n, 4) + rest2;
    assert Encode(b) + tail == ToBe(b.numBits, 4) + rest1;
    ReadBack(b.numBits, rest1, "num_bits");
    ReadBack(n, rest2, "word_len");
    assert rest2[..8 * n] == ws && rest2[8 * n..] == r + tail;
    ReadBack(b.rlw, tail, "rlw");
    DecodeEncodeWords(b.words);
  }

  /** What was decoded is what the input starts with, and the rest is the rest. */
  lemma EncodeDecode(input: Bytes, usizeMax: nat)
    requires Decoding(input, usizeMax).Ok?
    ensures var Ok(b, rest) := Decoding(input, usizeMax); |b.words| < 0x1_0000_0000 && Encode(b) + rest == input
  {
    var Ok(numBits, rest1) := ReadU32(input, "num_bits");
    var Ok(wordLen, rest2) := ReadU32(rest1, "word_len");
    var ws, rest3 := rest2[..8 * wordLen], rest2[8 * wordLen..];
    var Ok(rlw, rest4) := ReadU32(rest3, "rlw");
    var words := DecodeWords(ws);
    assert Decoding(input, usizeMax) == Ok(Bitmap(numBits, words, rlw), rest4);
    hide ReadU32, Decoding, DecodeWords, EncodeWords, ToBe;
    Rejoin(Bitmap(numBits, words, rlw), input, rest1, rest2, ws, rest3, rest4);
  }

  lemma Rejoin(b: Bitmap, input: Bytes, rest1: Bytes, rest2: Bytes, ws: Bytes, rest3: Bytes, rest4: Bytes)
    requires |b.words| < 0x1_0000_0000 && ws == EncodeWords(b.words)
    requires input == ToBe(b.numBits, 4) + rest1 && rest1 == ToBe(|b.words|, 4) + rest2
    requires |ws| <= |rest2| && ws == rest2[..|ws|] && rest3 == rest2[|ws|..] && rest3 == ToBe(b.rlw, 4) + rest4
    ensures Encode(b) + rest4 == input
  {
    assert rest2 == ws + rest3;
    hide EncodeWords, ToBe;
    Regroup(ToBe(b.numBits, 4), ToBe(|b.words|, 4), ws, ToBe(b.rlw, 4), rest4);
  }

  lemma Regroup(a: Bytes, b: Bytes, c: Bytes, d: Bytes, rest: Bytes)
    ensures a + b + c + d + rest == a + (b + (c + (d + rest)))
  {}

  // ---- the bits of a bitmap ------------------------------------------------

  predicate RunBit(word: U64) {
    word % 2 == 1
  }

  function RunLen(word: U64): nat {
    (word / 2) % 0x1_0000_0000
  }

  function RunLenBits(word: U64): nat {
    64 * RunLen(word)
  }

  function LiteralWords(word: U64): nat {
    word / 0x2_0000_0000
  }

  /** The run word with these fields. */
  function RunWord(bit: bool, len: U32, literals: nat): U64
    requires literals < 0x8000_0000
  {
    (if bit then 1 else 0) + 2 * len + 0x2_0000_0000 * literals
  }

  lemma RunWordFields(bit: bool, len: U32, literals: nat)
    requires literals < 0x8000_0000
    ensures var w := RunWord(bit, len, literals);
            RunBit(w) == bit && RunLen(w) == len && LiteralWords(w) == literals
  {
    var w := RunWord(bit, len, literals);
    assert w / 2 == len + 0x1_0000_0000 * literals;
  }

  function Pow2(i: nat): nat {
    if i == 0 then 1 else 2 * Pow2(i - 1)
  }

  lemma {:induction false} Pow2Positive(i: nat)
    ensures Pow2(i) > 0
  {
    if i > 0 {
      Pow2Positive(i - 1);
    }
  }

  predicate BitSet(word: U64, i: nat) {
    Pow2Positive(i);
    (word / Pow2(i)) % 2 == 1
  }

  function WordBits(word: U64): seq<bool> {
    seq(64, i requires 0 <= i < 64 => BitSet(word, i))
  }

  /** The bits the words stand for, `literals` literal words being still due before the next run word. */
  function Expand(words: seq<U64>, literals: nat): seq<bool> {
    if words == [] then [] else
      var w := words[0];
      if literals > 0 then WordBits(w) + Expand(words[1..], literals - 1)
      else seq(RunLenBits(w), _ => RunBit(w)) + Expand(words[1..], LiteralWords(w))
  }

  /** The positions below `n` of the set bits, in ascending order. */
  function Ones(bits: seq<bool>, n: nat): seq<nat>
    requires n <= |bits|
  {
    if n == 0 then [] else Ones(bits, n - 1) + if bits[n - 1] then [n - 1] else []
  }

  lemma {:induction false} OnesExact(bits: seq<bool>, n: nat)
    requires n <= |bits|
    ensures forall i, j :: 0 <= i < j < |Ones(bits, n)| ==> Ones(bits, n)[i] < Ones(bits, n)[j]
    ensures forall p :: p in Ones(bits, n) <==> 0 <= p < n && bits[p]
  {
    if n > 0 {
      OnesExact(bits, n - 1);
      var before := Ones(bits, n - 1);
      assert forall i :: 0 <= i < |before| ==> before[i] in before;
      assert forall p :: p in Ones(bits, n) <==> p in before || (p == n - 1 && bits[n - 1]);
    }
  }

  /** The positions the callback sees: in order, up to and including the first one it refuses. */
  ghost function Delivered(seen: seq<nat>, due: seq<nat>, f: (seq<nat>, nat) -> bool): seq<nat>
    decreases |due|
  {
    if due == [] then seen
    else if f(seen, due[0]) then Delivered(seen + [due[0]], due[1..], f)
    else seen + [due[0]]
  }

  /** The callback has accepted each of these in turn. */
  ghost predicate Accepted(seen: seq<nat>, f: (seq<nat>, nat) -> bool) {
    forall i :: 0 <= i < |seen| ==> f(seen[..i], seen[i])
  }

  lemma AcceptedPrefix(seen: seq<nat>, due: seq<nat>, f: (seq<nat>, nat) -> bool)
    requires due != [] && Accepted(seen + due, f)
    ensures f(seen, due[0])
  {
    assert (seen + due)[..|seen|] == seen && (seen + due)[|seen|] == due[0];
  }

  /** What is delivered is a prefix of what is due; it is all of it, or ends with the first refusal. */
  lemma {:induction false} DeliveredIs(seen: seq<nat>, due: seq<nat>, f: (seq<nat>, nat) -> bool)
    requires Accepted(seen, f)
    ensures seen <= Delivered(seen, due, f) <= seen + due
    ensures Accepted(seen + due, f) ==> Delivered(seen, due, f) == seen + due
    ensures !Accepted(seen + due, f) ==>
              var d := Delivered(seen, due, f);
              |d| > |seen| && Accepted(d[..|d| - 1], f) && !f(d[..|d| - 1], d[|d| - 1])
    decreases |due|
  {
    if due != [] {
      assert (seen + due)[..|seen|] == seen && (seen + due)[|seen|] == due[0];
      hide Accepted;
      if Accepted(seen + due, f) {
        AcceptedPrefix(seen, due, f);
      }
      if f(seen, due[0]) {
        var seen' := seen + [due[0]];
        assert seen' + due[1..] == seen + due;
        AcceptedSnoc(seen, due[0], f);
        DeliveredIs(seen', due[1..], f);
      } else {
        assert (seen + [due[0]])[..|seen|] == seen;
        assert seen + [due[0]] <= seen + due;
      }
    } else {
      assert seen + due == seen;
    }
  }

  // ---- iterating -----------------------------------------------------------

  /** The iteration stands at `index` with the first `at` bits behind it and no refusal so far. */
  ghost predicate Standing(bits: seq<bool>, limit: nat, at: nat, index: nat, seen: seq<nat>, f: (seq<nat>,
                           nat) -> bool) {
    && at <= |bits|
    && (index == at || (index >= limit && at >= limit))
    && seen == Ones(bits, Min(at, limit))
    && Accepted(seen, f)
  }

  ghost function Expected(bits: seq<bool>, limit: nat, f: (seq<nat>, nat) -> bool): seq<nat> {
    Delivered([], Ones(bits, Min(|bits|, limit)), f)
  }

  lemma {:induction false} OnesGrow(bits: seq<bool>, m: nat, n: nat)
    requires m <= n <= |bits|
    ensures Ones(bits, m) <= Ones(bits, n)
    decreases n
  {
    if m < n {
      OnesGrow(bits, m, n - 1);
    }
  }

  lemma {:induction false} OnesOverZeros(bits: seq<bool>, m: nat, n: nat)
    requires m <= n <= |bits| && forall i :: m <= i < n ==> !bits[i]
    ensures Ones(bits, m) == Ones(bits, n)
    decreases n
  {
    if m < n {
      OnesOverZeros(bits, m, n - 1);
    }
  }

  /** The iteration may end here: the limit is reached or the bits are used up. */
  lemma EndsHere(bits: seq<bool>, limit: nat, at: nat, index: nat, seen: seq<nat>, f: (seq<nat>, nat) -> bool)
    requires Standing(bits, limit, at, index, seen, f) && (index >= limit || at == |bits|)
    ensures seen == Expected(bits, limit, f)
  {
    DeliveredIs([], seen, f);
    assert [] + seen == seen;
  }

  /** Step over the bit at `index`, reporting it if it is set. */
  method Visit(bit: bool, index: nat, limit: nat, seen: seq<nat>, f: (seq<nat>, nat) -> bool, ghost bits: seq<bool>)
    returns (seen': seq<nat>, go: bool)
    requires index < limit && index < |bits| && bits[index] == bit && Standing(bits, limit, index, index, seen, f)
    ensures go ==> Standing(bits, limit, index + 1, index + 1, seen', f)
    ensures !go ==> seen' == Expected(bits, limit, f)
  {
    if !bit {
      return seen, true;
    }
    seen' := seen + [index];
    assert Ones(bits, index + 1) == seen';
    go := f(seen, index);
    hide Ones, Delivered;
    if go {
      AcceptedSnoc(seen, index, f);
    } else {
      OnesGrow(bits, index + 1, Min(|bits|, limit));
      RefusedAt(Ones(bits, Min(|bits|, limit)), seen, index, f);
    }
  }

  lemma AcceptedSnoc(seen: seq<nat>, index: nat, f: (seq<nat>, nat) -> bool)
    requires Accepted(seen, f) && f(seen, index)
    ensures Accepted(seen + [index], f)
  {
    var seen' := seen + [index];
    assert seen'[..|seen|] == seen && forall i :: 0 <= i < |seen| ==> seen'[..i] == seen[..i];
  }

  lemma {:induction false} DeliverOn(seen: seq<nat>, due: seq<nat>, more: seq<nat>, f: (seq<nat>, nat) -> bool)
    requires Accepted(seen + due, f)
    ensures Delivered(seen, due + more, f) == Delivered(seen + due, more, f)
    decreases |due|
  {
    if due == [] {
      assert seen + due == seen && due + more == more;
    } else {
      assert (seen + due)[..|seen|] == seen && (seen + due)[|seen|] == due[0];
      assert (due + more)[1..] == due[1..] + more;
      assert (seen + [due[0]]) + due[1..] == seen + due;
      DeliverOn(seen + [due[0]], due[1..], more, f);
    }
  }

  lemma RefusedAt(due: seq<nat>, seen: seq<nat>, index: nat, f: (seq<nat>, nat) -> bool)
    requires seen + [index] <= due && Accepted(seen, f) && !f(seen, index)
    ensures Delivered([], due, f) == seen + [index]
  {
    var more := due[|seen|..];
    assert due == seen + more && more[0] == index;
    assert [] + seen == seen;
    DeliverOn([], seen, more, f);
  }

  /** A run of set bits. */
  method VisitRun(len: nat, index0: nat, limit: nat, seen0: seq<nat>, f: (seq<nat>, nat) -> bool, ghost bits: seq<bool>)
    returns (index: nat, seen: seq<nat>, go: bool)
    requires Standing(bits, limit, index0, index0, seen0, f) && index0 + len <= |bits|
    requires forall i :: index0 <= i < index0 + len ==> bits[i]
    ensures go ==> index == index0 + len && Standing(bits, limit, index, index, seen, f)
    ensures !go ==> seen == Expected(bits, limit, f)
  {
    index, seen := index0, seen0;
    for n := 0 to len
      invariant index == index0 + n && Standing(bits, limit, index, index, seen, f)
    {
      if index >= limit {
        EndsHere(bits, limit, index, index, seen, f);
        return index, seen, false;
      }
      seen, go := Visit(true, index, limit, seen, f, bits);
      if !go {
        return;
      }
      index := index + 1;
    }
    go := true;
  }

  /** The 64 bits of a literal word, lowest first. */
  method VisitLiteral(word: U64, index0: nat, limit: nat, seen0: seq<nat>, f: (seq<nat>, nat) -> bool,
                      ghost bits: seq<bool>)
    returns (index: nat, seen: seq<nat>, go: bool)
    requires Standing(bits, limit, index0, index0, seen0, f) && index0 + 64 <= |bits|
    requires forall i :: 0 <= i < 64 ==> bits[index0 + i] == BitSet(word, i)
    ensures go ==> index == index0 + 64 && Standing(bits, limit, index, index, seen, f)
    ensures !go ==> seen == Expected(bits, limit, f)
  {
    index, seen := index0, seen0;
    for bitIdx := 0 to 64
      invariant index == index0 + bitIdx && Standing(bits, limit, index, index, seen, f)
    {
      if index >= limit {
        EndsHere(bits, limit, index, index, seen, f);
        return index, seen, false;
      }
      assert bits[index0 + bitIdx] == BitSet(word, bitIdx);
      seen, go := Visit(BitSet(word, bitIdx), index, limit, seen, f, bits);
      if !go {
        return;
      }
      index := index + 1;
    }
    go := true;
  }

  /**
   Hand the set bits to the callback in ascending order until it refuses one. `f` gives the
   callback's answer from the positions it was handed before and the one it is handed now.
   */
  method ForEachSetBit(b: Bitmap, usizeMax: nat, f: (seq<nat>, nat) -> bool) returns (seen: seq<nat>)
    ensures seen == Expected(Expand(b.words, 0), Min(b.numBits, usizeMax), f)
  {
    hide Standing, Expand, Ones, Expected, Accepted;
    ghost var bits := Expand(b.words, 0);
    var limit := Min(b.numBits, usizeMax);
    var index, pos := 0, 0;
    ghost var at: nat := 0;
    var go;
    seen := [];
    StandsAtStart(bits, limit, f);
    while pos < |b.words|
      invariant 0 <= pos <= |b.words| && at <= |bits| && Standing(bits, limit, at, index, seen, f)
      invariant bits[at..] == Expand(b.words[pos..], 0)
      decreases |b.words| - pos
    {
      var word := b.words[pos];
      pos := pos + 1;
      if index >= limit {
        EndsHere(bits, limit, at, index, seen, f);
        return;
      }
      InStep(bits, limit, at, index, seen, f);
      var len := RunLenBits(word);
      RunAhead(bits, at, b.words, pos - 1);
      if RunBit(word) {
        index, seen, go := VisitRun(len, index, limit, seen, f, bits);
        if !go {
          return;
        }
      } else {
        var skip := Min(len, usizeMax);
        SkipsZeros(bits, limit, at, len, usizeMax, seen, f);
        index := Min(index + skip, usizeMax);
      }
      at := at + len;
      var literals := LiteralWords(word);
      ghost var posRun := pos;
      var l := 0;
      while l < literals
        invariant 0 <= l <= literals && posRun <= pos <= |b.words|
        invariant at <= |bits| && Standing(bits, limit, at, index, seen, f)
        invariant bits[at..] == Expand(b.words[pos..], literals - l)
      {
        if index >= limit {
          EndsHere(bits, limit, at, index, seen, f);
          return;
        }
        if pos == |b.words| {
          NothingAhead(bits, at, b.words, literals - l);
          EndsHere(bits, limit, at, index, seen, f);
          return;
        }
        InStep(bits, limit, at, index, seen, f);
        LiteralAhead(bits, at, b.words, pos, literals - l);
        index, seen, go := VisitLiteral(b.words[pos], index, limit, seen, f, bits);
        if !go {
          return;
        }
        pos := pos + 1;
        at := at + 64;
        l := l + 1;
      }
    }
    NothingAhead(bits, at, b.words, 0);
    EndsHere(bits, limit, at, index, seen, f);
  }

  lemma StandsAtStart(bits: seq<bool>, limit: nat, f: (seq<nat>, nat) -> bool)
    ensures Standing(bits, limit, 0, 0, [], f)
  {}

  /** Below the limit the index is the number of bits behind it. */
  lemma InStep(bits: seq<bool>, limit: nat, at: nat, index: nat, seen: seq<nat>, f: (seq<nat>, nat) -> bool)
    requires Standing(bits, limit, at, index, seen, f) && index < limit
    ensures index == at
  {}

  lemma SkipsZeros(bits: seq<bool>, limit: nat, at: nat, len: nat, usizeMax: nat, seen: seq<nat>, f: (seq<nat>,
                   nat) -> bool)
    requires Standing(bits, limit, at, at, seen, f) && at < limit <= usizeMax && at + len <= |bits|
    requires forall i :: at <= i < at + len ==> !bits[i]
    ensures Standing(bits, limit, at + len, Min(at + Min(len, usizeMax), usizeMax), seen, f)
  {
    OnesOverZeros(bits, at, Min(at + len, limit));
  }

  lemma NothingAhead(bits: seq<bool>, at: nat, words: seq<U64>, literals: nat)
    requires at <= |bits| && bits[at..] == Expand(words[|words|..], literals)
    ensures at == |bits|
  {}

  lemma RunAhead(bits: seq<bool>, at: nat, words: seq<U64>, pos: nat)
    requires pos < |words| && at <= |bits| && bits[at..] == Expand(words[pos..], 0)
    ensures at + RunLenBits(words[pos]) <= |bits|
    ensures forall i :: at <= i < at + RunLenBits(words[pos]) ==> bits[i] == RunBit(words[pos])
    ensures bits[at + RunLenBits(words[pos])..] == Expand(words[pos + 1..], LiteralWords(words[pos]))
  {
    var w, rest := words[pos], bits[at..];
    assert words[pos..][1..] == words[pos + 1..] && words[pos..][0] == w;
    forall i | at <= i < at + RunLenBits(w) ensures bits[i] == RunBit(w) {
      assert bits[i] == rest[i - at];
    }
    assert bits[at + RunLenBits(w)..] == rest[RunLenBits(w)..];
  }

  lemma LiteralAhead(bits: seq<bool>, at: nat, words: seq<U64>, pos: nat, literals: nat)
    requires pos < |words| && at <= |bits| && literals > 0 && bits[at..] == Expand(words[pos..], literals)
    ensures at + 64 <= |bits| && forall i :: 0 <= i < 64 ==> bits[at + i] == BitSet(words[pos], i)
    ensures bits[at + 64..] == Expand(words[pos + 1..], literals - 1)
  {
    var rest := bits[at..];
    assert words[pos..][1..] == words[pos + 1..] && words[pos..][0] == words[pos];
    forall i | 0 <= i < 64 ensures bits[at + i] == BitSet(words[pos], i) {
      assert bits[at + i] == rest[i];
    }
    assert bits[at + 64..] == rest[64..];
  }

  /** A callback that never refuses sees exactly the set positions below the limit, in ascending order. */
  lemma AllSetBitsSeen(b: Bitmap, limit: nat)
    ensures var bits, all := Expand(b.words, 0), Expected(Expand(b.words, 0), limit, (_, _) => true);
            && (forall p :: p in all <==> 0 <= p < Min(|bits|, limit) && bits[p])
            && (forall i, j :: 0 <= i < j < |all| ==> all[i] < all[j])
  {
    var bits := Expand(b.words, 0);
    var due := Ones(bits, Min(|bits|, limit));
    OnesExact(bits, Min(|bits|, limit));
    DeliveredIs([], due, (_, _) => true);
    assert [] + due == due;
  }
}
