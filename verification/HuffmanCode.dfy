// The canonical Huffman code of section 3.2.2 of RFC 1951, and the facts about it
// that make the decoder of source/tools/gzip/gzip.c correct.
module HuffmanCode {
  import opened Words
  import opened BitStream

  /** The longest code in bits; all three *_MAXBITS constants of gzip.h have this value. */
  const MAXBITS: nat := 15

  /** Code lengths by symbol; 0 means that the symbol is not used. */
  type Lengths = s: seq<nat> | forall j :: 0 <= j < |s| ==> s[j] <= MAXBITS

  predicate Used(lens: Lengths, j: nat) {
    j < |lens| && lens[j] > 0
  }

  /** How many of the first j symbols have codes of len bits. */
  function CountBefore(lens: Lengths, len: nat, j: nat): nat
    requires j <= |lens|
  {
    if j == 0 then 0
    else CountBefore(lens, len, j - 1) + (if lens[j - 1] == len then 1 else 0)
  }

  /** bl_count of section 3.2.2 of RFC 1951. */
  function Count(lens: Lengths, len: nat): nat {
    CountBefore(lens, len, |lens|)
  }

  /** next_code of section 3.2.2 of RFC 1951: the numerically smallest code of len bits. */
  function FirstCode(lens: Lengths, len: nat): nat {
    if len <= 1 then 0 else 2 * (FirstCode(lens, len - 1) + Count(lens, len - 1))
  }

  /** The code of symbol j: codes of one length are consecutive, in the order of the symbols. */
  function CodeOf(lens: Lengths, j: nat): nat
    requires j < |lens|
  {
    FirstCode(lens, lens[j]) + CountBefore(lens, lens[j], j)
  }

  /** The code of symbol j as it appears in the stream, most significant bit first. */
  function Codeword(lens: Lengths, j: nat): (bits: seq<bit>)
    requires j < |lens|
    ensures |bits| == lens[j]
  {
    Msb(CodeOf(lens, j), lens[j])
  }

  // ---------------------------------------------------------------------------
  // Kraft's inequality

  /** How many of the 2^MAXBITS windows start with a given code of len bits. */
  function Weight(len: nat): (w: nat)
    requires len <= MAXBITS
    ensures w > 0
  {
    Pow2(MAXBITS - len)
  }

  /** The Kraft sum of the first j symbols, in units of 2^-MAXBITS. */
  function KraftSum(lens: Lengths, j: nat): nat
    requires j <= |lens|
  {
    if j == 0 then 0
    else KraftSum(lens, j - 1) + (if lens[j - 1] > 0 then Weight(lens[j - 1]) else 0)
  }

  /** The lengths meet Kraft's inequality: the code is not over-subscribed. */
  predicate Kraft(lens: Lengths) {
    KraftSum(lens, |lens|) <= Pow2(MAXBITS)
  }

  /** The part of the Kraft sum that the first j symbols with codes shorter than len contribute. */
  function SumBelow(lens: Lengths, len: nat, j: nat): nat
    requires len <= MAXBITS + 1 && j <= |lens|
  {
    if len <= 1 then 0
    else SumBelow(lens, len - 1, j) + CountBefore(lens, len - 1, j) * Weight(len - 1)
  }

  lemma {:induction false} SumBelowStep(lens: Lengths, len: nat, j: nat)
    requires len <= MAXBITS + 1 && j < |lens|
    ensures SumBelow(lens, len, j + 1) == SumBelow(lens, len, j) + (if 0 < lens[j] < len then Weight(lens[j]) else 0)
  {
    if len > 1 {
      SumBelowStep(lens, len - 1, j);
      var c := CountBefore(lens, len - 1, j);
      if lens[j] == len - 1 {
        MulAdd(c, 1, Weight(len - 1));
      }
    }
  }

  lemma {:induction false} SumBelowZero(lens: Lengths, len: nat)
    requires len <= MAXBITS + 1
    ensures SumBelow(lens, len, 0) == 0
  {
    if len > 1 {
      SumBelowZero(lens, len - 1);
    }
  }

  /** The Kraft sum taken symbol by symbol is the sum taken length by length. */
  lemma {:induction false} KraftByLength(lens: Lengths, j: nat)
    requires j <= |lens|
    ensures KraftSum(lens, j) == SumBelow(lens, MAXBITS + 1, j)
  {
    if j == 0 {
      SumBelowZero(lens, MAXBITS + 1);
    } else {
      KraftByLength(lens, j - 1);
      SumBelowStep(lens, MAXBITS + 1, j - 1);
    }
  }

  /** next_code of length len, scaled to a window, is the Kraft sum of the shorter codes. */
  lemma {:induction false} FirstCodeIsSum(lens: Lengths, len: nat)
    requires 1 <= len <= MAXBITS
    ensures FirstCode(lens, len) * Weight(len) == SumBelow(lens, len, |lens|)
  {
    if len > 1 {
      FirstCodeIsSum(lens, len - 1);
      var a, c, w := FirstCode(lens, len - 1), Count(lens, len - 1), Weight(len);
      assert Weight(len - 1) == 2 * w;
      Distribute(a, c, w);
    }
  }

  lemma MulAdd(a: nat, b: nat, w: nat)
    ensures (a + b) * w == a * w + b * w
    ensures 1 * w == w
  {
  }

  lemma Distribute(a: nat, c: nat, w: nat)
    ensures 2 * (a + c) * w == a * (2 * w) + c * (2 * w)
  {
  }

  lemma {:induction false} SumBelowMonotone(lens: Lengths, len: nat, len': nat)
    requires len <= len' <= MAXBITS + 1
    ensures SumBelow(lens, len, |lens|) <= SumBelow(lens, len', |lens|)
  {
    hide CountBefore, Weight;
    if len < len' {
      SumBelowMonotone(lens, len, len' - 1);
      MulNonNegative(CountBefore(lens, len' - 1, |lens|), Weight(len' - 1));
    }
  }

  lemma MulNonNegative(a: nat, b: nat)
    ensures a * b >= 0
  {
  }

  lemma {:induction false} CountBeforeMonotone(lens: Lengths, len: nat, i: nat, j: nat)
    requires i < j <= |lens|
    ensures CountBefore(lens, len, i) + (if lens[i] == len then 1 else 0) <= CountBefore(lens, len, j)
  {
    if i < j - 1 {
      CountBeforeMonotone(lens, len, i, j - 1);
    }
  }

  /** Whatever the lengths are, no code that make_code_table computes leaves 32 bits. */
  lemma {:induction false} FirstCodeBound(lens: Lengths, len: nat)
    requires 1 <= len
    ensures FirstCode(lens, len) + 2 * |lens| <= |lens| * Pow2(len)
  {
    if len > 1 {
      FirstCodeBound(lens, len - 1);
      CountBound(lens, len - 1, |lens|);
      Double(|lens|, Pow2(len - 1), 0);
    } else {
      assert Pow2(1) == 2;
    }
  }

  lemma {:induction false} CountBound(lens: Lengths, len: nat, j: nat)
    requires j <= |lens|
    ensures CountBefore(lens, len, j) <= j
  {
    if j > 0 {
      CountBound(lens, len, j - 1);
    }
  }

  lemma CodesFitWords(lens: Lengths, len: nat, j: nat)
    requires 1 <= len <= MAXBITS + 1 && |lens| <= 288 && j <= |lens|
    ensures FirstCode(lens, len) + CountBefore(lens, len, j) <= WORD_MAX
  {
    FirstCodeBound(lens, len);
    CountBound(lens, len, j);
    Pow2Monotone(len, 16);
    assert Pow2(4) == 16 && Pow2(8) == 256;
    Pow2Add(8, 8);
    MulMonotone(|lens|, 288, Pow2(len));
  }

  // ---------------------------------------------------------------------------
  // Every code owns an interval of windows; the intervals do not meet.

  /** The first window that starts with the code of symbol j. */
  function Start(lens: Lengths, j: nat): nat
    requires Used(lens, j)
  {
    CodeOf(lens, j) * Weight(lens[j])
  }

  /** The interval of symbol j lies between the Kraft sums of the shorter and of the not longer codes. */
  lemma StartBounds(lens: Lengths, j: nat)
    requires Used(lens, j)
    ensures Start(lens, j) == SumBelow(lens, lens[j], |lens|) + CountBefore(lens, lens[j], j) * Weight(lens[j])
    ensures Start(lens, j) + Weight(lens[j]) <= SumBelow(lens, lens[j] + 1, |lens|)
  {
    var len := lens[j];
    var w, c, n := Weight(len), CountBefore(lens, len, j), Count(lens, len);
    FirstCodeIsSum(lens, len);
    MulAdd(FirstCode(lens, len), c, w);
    CountBeforeMonotone(lens, len, j, |lens|);
    MulMonotone(c + 1, n, w);
    MulAdd(c, 1, w);
  }

  lemma IntervalsDisjoint(lens: Lengths, i: nat, j: nat)
    requires Used(lens, i) && Used(lens, j)
    requires lens[i] < lens[j] || (lens[i] == lens[j] && i < j)
    ensures Start(lens, i) + Weight(lens[i]) <= Start(lens, j)
  {
    StartBounds(lens, i);
    StartBounds(lens, j);
    if lens[i] < lens[j] {
      SumBelowMonotone(lens, lens[i] + 1, lens[j]);
    } else {
      var w, c, d := Weight(lens[j]), CountBefore(lens, lens[j], i), CountBefore(lens, lens[j], j);
      CountBeforeMonotone(lens, lens[j], i, j);
      MulMonotone(c + 1, d, w);
      MulAdd(c, 1, w);
    }
  }

  /** Under Kraft's inequality every code fits in its length. */
  lemma CodeFits(lens: Lengths, j: nat)
    requires Used(lens, j) && Kraft(lens)
    ensures CodeOf(lens, j) < Pow2(lens[j])
  {
    StartBounds(lens, j);
    SumBelowMonotone(lens, lens[j] + 1, MAXBITS + 1);
    KraftByLength(lens, |lens|);
    Pow2Add(lens[j], MAXBITS - lens[j]);
    if CodeOf(lens, j) >= Pow2(lens[j]) {
      MulMonotone(Pow2(lens[j]), CodeOf(lens, j), Weight(lens[j]));
    }
  }

  /** Every code fits in its length only if Kraft's inequality holds. */
  lemma KraftExact(lens: Lengths)
    ensures Kraft(lens) <==> forall j :: 0 <= j < |lens| && Used(lens, j) ==> CodeOf(lens, j) < Pow2(lens[j])
  {
    if Kraft(lens) {
      forall j | 0 <= j < |lens| && Used(lens, j) ensures CodeOf(lens, j) < Pow2(lens[j]) {
        CodeFits(lens, j);
      }
    } else {
      hide FirstCode, CountBefore, SumBelow, KraftSum;
      KraftByLength(lens, |lens|);
      var j := LastCode(lens, MAXBITS + 1);
      StartBounds(lens, j);
      MulAdd(CodeOf(lens, j), 1, Weight(lens[j]));
      Pow2Add(lens[j], MAXBITS - lens[j]);
      assert (CodeOf(lens, j) + 1) * Weight(lens[j]) > Pow2(lens[j]) * Weight(lens[j]);
      hide CodeOf, Pow2, Weight;
      CancelLess(Pow2(lens[j]), CodeOf(lens, j) + 1, Weight(lens[j]));
      assert Used(lens, j) && !(CodeOf(lens, j) < Pow2(lens[j]));
    }
  }

  lemma CancelLess(a: nat, b: nat, w: nat)
    requires a * w < b * w
    ensures a < b
  {
    if a >= b {
      MulMonotone(b, a, w);
    }
  }

  /** The last symbol among those with the longest codes below len: its interval ends at the Kraft sum. */
  lemma {:induction false} LastCode(lens: Lengths, len: nat) returns (j: nat)
    requires len <= MAXBITS + 1 && SumBelow(lens, len, |lens|) > 0
    ensures Used(lens, j) && lens[j] < len
    ensures Start(lens, j) + Weight(lens[j]) == SumBelow(lens, len, |lens|)
  {
    var n := Count(lens, len - 1);
    if n == 0 {
      MulAdd(0, 0, Weight(len - 1));
      j := LastCode(lens, len - 1);
    } else {
      j := LastOf(lens, len - 1, |lens|);
      StartBounds(lens, j);
      MulAdd(n - 1, 1, Weight(len - 1));
    }
  }

  lemma {:induction false} LastOf(lens: Lengths, len: nat, k: nat) returns (j: nat)
    requires k <= |lens| && CountBefore(lens, len, k) > 0
    ensures j < k && lens[j] == len && CountBefore(lens, len, j) + 1 == CountBefore(lens, len, k)
  {
    if lens[k - 1] == len {
      j := k - 1;
    } else {
      j := LastOf(lens, len, k - 1);
    }
  }

  /** A window of MAXBITS bits starts with the code of j when it lies in the interval of j. */
  predicate InInterval(lens: Lengths, j: nat, w: nat)
    requires Used(lens, j)
  {
    Start(lens, j) <= w < Start(lens, j) + Weight(lens[j])
  }

  lemma QuotientInInterval(lens: Lengths, j: nat, w: nat)
    requires Used(lens, j)
    ensures w / Weight(lens[j]) == CodeOf(lens, j) <==> InInterval(lens, j, w)
  {
    var c, d := CodeOf(lens, j), Weight(lens[j]);
    DivBounds(w, d);
    MulAdd(c, 1, d);
    if InInterval(lens, j, w) {
      DivOf(c, d, w - c * d);
    }
  }

  /** No window starts with the codes of two symbols. */
  lemma IntervalUnique(lens: Lengths, i: nat, j: nat, w: nat)
    requires Used(lens, i) && Used(lens, j)
    requires InInterval(lens, i, w) && InInterval(lens, j, w)
    ensures i == j
  {
    if lens[i] < lens[j] || (lens[i] == lens[j] && i < j) {
      IntervalsDisjoint(lens, i, j);
    } else if lens[j] < lens[i] || j < i {
      IntervalsDisjoint(lens, j, i);
    }
  }

  /** The stream holds the code of symbol j at pos. */
  ghost predicate CodeAt(s: Source, pos: nat, lens: Lengths, j: nat) {
    Used(lens, j) && CodeOf(lens, j) < Pow2(lens[j]) && At(s, pos, Codeword(lens, j))
  }

  /** The test that decode_one applies to its lookahead window. */
  lemma CodeAtWindow(s: Source, pos: nat, lens: Lengths, j: nat)
    requires Used(lens, j)
    ensures CodeAt(s, pos, lens, j) <==> Window(s, pos, MAXBITS) / Weight(lens[j]) == CodeOf(lens, j)
  {
    WindowPrefix(s, pos, lens[j], MAXBITS - lens[j]);
    WindowBound(s, pos, lens[j]);
    if CodeOf(lens, j) < Pow2(lens[j]) {
      AtMsb(s, pos, CodeOf(lens, j), lens[j]);
    }
  }

  /** At most one code starts at any position: the code can be decoded in one way only. */
  lemma CodeUnique(s: Source, pos: nat, lens: Lengths, i: nat, j: nat)
    requires CodeAt(s, pos, lens, i) && CodeAt(s, pos, lens, j)
    ensures i == j
  {
    var w := Window(s, pos, MAXBITS);
    CodeAtWindow(s, pos, lens, i);
    CodeAtWindow(s, pos, lens, j);
    QuotientInInterval(lens, i, w);
    QuotientInInterval(lens, j, w);
    IntervalUnique(lens, i, j, w);
  }

  /** A source that starts with the given bits. */
  ghost function SourceOf(bits: seq<bit>): (s: Source)
    ensures At(s, 0, bits)
  {
    var beyond := (i: nat) => PackByte(bits, i);
    var s := Source([], beyond);
    assert At(s, 0, bits) by {
      forall k | 0 <= k < |bits| ensures BitAt(s, 0 + k) == bits[k] {
        PackByteBit(bits, k / 8, k % 8);
      }
    }
    s
  }

  ghost function PackByte(bits: seq<bit>, i: nat): byte {
    PackFrom(bits, 8 * i, 8)
  }

  ghost function PackFrom(bits: seq<bit>, p: nat, n: nat): (v: nat)
    ensures v < Pow2(n)
    ensures n == 8 ==> v < 256
    decreases n
  {
    assert Pow2(8) == 256 by { assert Pow2(4) == 16; Pow2Add(4, 4); }
    if n == 0 then 0
    else (if p < |bits| then bits[p] else 0) + 2 * PackFrom(bits, p + 1, n - 1)
  }

  lemma {:induction false} PackFromBit(bits: seq<bit>, p: nat, n: nat, k: nat)
    requires k < n && p + k < |bits|
    ensures Bit(PackFrom(bits, p, n), k) == (bits[p + k] == 1)
    decreases n
  {
    if k != 0 {
      PackFromBit(bits, p + 1, n - 1, k - 1);
    }
  }

  lemma PackByteBit(bits: seq<bit>, i: nat, k: nat)
    requires k < 8 && 8 * i + k < |bits|
    ensures Bit(PackByte(bits, i), k) == (bits[8 * i + k] == 1)
  {
    PackFromBit(bits, 8 * i, 8, k);
  }

  /** No code word is a prefix of another one. */
  lemma PrefixFree(lens: Lengths, i: nat, j: nat)
    requires Kraft(lens) && Used(lens, i) && Used(lens, j) && i != j
    ensures !(Codeword(lens, i) <= Codeword(lens, j))
  {
    if Codeword(lens, i) <= Codeword(lens, j) {
      var s := SourceOf(Codeword(lens, j));
      CodeFits(lens, i);
      CodeFits(lens, j);
      assert At(s, 0, Codeword(lens, i));
      CodeUnique(s, 0, lens, i, j);
    }
  }
}
