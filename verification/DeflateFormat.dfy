// The compressed data of section 3.2 of RFC 1951: literals and back references, their
// meaning, and how they are written with two Huffman codes.
module DeflateFormat {
  import opened Words
  import opened BitStream
  import opened HuffmanCode

  const HLIT_TSIZE: nat := 288
  const HDIST_TSIZE: nat := 30
  const END_OF_BLOCK: nat := 256

  // ---------------------------------------------------------------------------
  // Lengths and distances (section 3.2.5)

  /** Length symbols 257 to 285; the symbols 286 and 287 never occur in valid data. */
  predicate IsLengthSymbol(sym: nat) {
    257 <= sym <= 285
  }

  function LengthBits(sym: nat): nat
    requires IsLengthSymbol(sym)
  {
    if sym < 265 || sym == 285 then 0 else (sym - 261) / 4
  }

  /** Each length symbol continues where the one before it ends; 285 alone stands for 258. */
  function LengthBase(sym: nat): nat
    requires IsLengthSymbol(sym)
  {
    if sym == 285 then 258
    else if sym == 257 then 3
    else LengthBase(sym - 1) + Pow2(LengthBits(sym - 1))
  }

  function DistanceBits(sym: nat): nat {
    if sym < 4 then 0 else sym / 2 - 1
  }

  function DistanceBase(sym: nat): nat {
    if sym == 0 then 1 else DistanceBase(sym - 1) + Pow2(DistanceBits(sym - 1))
  }

  /** Every length from 3 to 258 has a length symbol and extra bits that stand for it. */
  lemma {:induction false} LengthCovered(length: nat, sym: nat) returns (s: nat, extra: nat)
    requires 257 <= sym < 285 && LengthBase(257) <= length < LengthBase(sym) + Pow2(LengthBits(sym))
    ensures 257 <= s <= sym && extra < Pow2(LengthBits(s)) && LengthBase(s) + extra == length
  {
    if length >= LengthBase(sym) {
      s, extra := sym, length - LengthBase(sym);
    } else {
      s, extra := LengthCovered(length, sym - 1);
    }
  }

  lemma {:induction false} DistanceCovered(distance: nat, sym: nat) returns (s: nat, extra: nat)
    requires 1 <= distance < DistanceBase(sym) + Pow2(DistanceBits(sym))
    ensures s <= sym && extra < Pow2(DistanceBits(s)) && DistanceBase(s) + extra == distance
  {
    if distance >= DistanceBase(sym) {
      s, extra := sym, distance - DistanceBase(sym);
    } else {
      s, extra := DistanceCovered(distance, sym - 1);
    }
  }

  /** A row of the tables of gzip.c: a symbol, its base value and the number of its extra bits. */
  datatype Row = Row(code: nat, length: nat, readbits: nat)

  const LENGTH_TABLE: seq<Row> := [
    Row(257, 3, 0), Row(258, 4, 0), Row(259, 5, 0), Row(260, 6, 0),
    Row(261, 7, 0), Row(262, 8, 0), Row(263, 9, 0), Row(264, 10, 0),
    Row(265, 11, 1), Row(266, 13, 1), Row(267, 15, 1), Row(268, 17, 1),
    Row(269, 19, 2), Row(270, 23, 2), Row(271, 27, 2), Row(272, 31, 2),
    Row(273, 35, 3), Row(274, 43, 3), Row(275, 51, 3), Row(276, 59, 3),
    Row(277, 67, 4), Row(278, 83, 4), Row(279, 99, 4), Row(280, 115, 4),
    Row(281, 131, 5), Row(282, 163, 5), Row(283, 195, 5), Row(284, 227, 5),
    Row(285, 258, 0), Row(0, 0, 0)]

  const DISTANCE_TABLE: seq<Row> := [
    Row(0, 1, 0), Row(1, 2, 0), Row(2, 3, 0), Row(3, 4, 0),
    Row(4, 5, 1), Row(5, 7, 1), Row(6, 9, 2), Row(7, 13, 2),
    Row(8, 17, 3), Row(9, 25, 3), Row(10, 33, 4), Row(11, 49, 4),
    Row(12, 65, 5), Row(13, 97, 5), Row(14, 129, 6), Row(15, 193, 6),
    Row(16, 257, 7), Row(17, 385, 7), Row(18, 513, 8), Row(19, 769, 8),
    Row(20, 1025, 9), Row(21, 1537, 9), Row(22, 2049, 10), Row(23, 3073, 10),
    Row(24, 4097, 11), Row(25, 6145, 11), Row(26, 8193, 12), Row(27, 12289, 12),
    Row(28, 16385, 13), Row(29, 24577, 13), Row(0, 0, 0)]

  /** The base lengths of section 3.2.5, one by one. */
  lemma LengthBases()
    ensures LengthBase(257) == 3 && LengthBase(258) == 4 && LengthBase(259) == 5 && LengthBase(260) == 6 &&
            LengthBase(261) == 7
    ensures LengthBase(262) == 8 && LengthBase(263) == 9 && LengthBase(264) == 10 && LengthBase(265) == 11 &&
            LengthBase(266) == 13
    ensures LengthBase(267) == 15 && LengthBase(268) == 17 && LengthBase(269) == 19 && LengthBase(270) == 23 &&
            LengthBase(271) == 27
    ensures LengthBase(272) == 31 && LengthBase(273) == 35 && LengthBase(274) == 43 && LengthBase(275) == 51 &&
            LengthBase(276) == 59
    ensures LengthBase(277) == 67 && LengthBase(278) == 83 && LengthBase(279) == 99 && LengthBase(280) == 115 &&
            LengthBase(281) == 131
    ensures LengthBase(282) == 163 && LengthBase(283) == 195 && LengthBase(284) == 227 && LengthBase(285) == 258
  {
  }

  lemma DistanceBases()
    ensures DistanceBase(0) == 1 && DistanceBase(1) == 2 && DistanceBase(2) == 3 && DistanceBase(3) == 4 &&
            DistanceBase(4) == 5
    ensures DistanceBase(5) == 7 && DistanceBase(6) == 9 && DistanceBase(7) == 13 && DistanceBase(8) == 17 &&
            DistanceBase(9) == 25
    ensures DistanceBase(10) == 33 && DistanceBase(11) == 49 && DistanceBase(12) == 65 && DistanceBase(13) == 97 &&
            DistanceBase(14) == 129
    ensures DistanceBase(15) == 193 && DistanceBase(16) == 257 && DistanceBase(17) == 385 && DistanceBase(18) == 513 &&
            DistanceBase(19) == 769
    ensures DistanceBase(20) == 1025 && DistanceBase(21) == 1537 && DistanceBase(22) == 2049 &&
            DistanceBase(23) == 3073 && DistanceBase(24) == 4097
    ensures DistanceBase(25) == 6145 && DistanceBase(26) == 8193 && DistanceBase(27) == 12289 &&
            DistanceBase(28) == 16385 && DistanceBase(29) == 24577
  {
    assert Pow2(4) == 16 && Pow2(8) == 256 && Pow2(12) == 4096;
  }

  /** The rows of the length table are the length symbols, in order. */
  lemma LengthTable()
    ensures forall i :: 0 <= i < 29 ==> LENGTH_TABLE[i] == Row(257 + i, LengthBase(257 + i), LengthBits(257 + i))
  {
    hide LengthBase;
    LengthBases();
  }

  /** The rows of the distance table are the distance symbols, in order. */
  lemma DistanceTable()
    ensures forall i :: 0 <= i < 30 ==> DISTANCE_TABLE[i] == Row(i, DistanceBase(i), DistanceBits(i))
  {
    hide DistanceBase, DistanceBits;
    DistanceBases();
    forall i | 0 <= i < 30
      ensures DISTANCE_TABLE[i] == Row(i, DistanceBase(i), DistanceBits(i))
    {
      DistanceBitsOf(i);
    }
  }

  lemma DistanceBitsOf(i: nat)
    ensures DistanceBits(i) == if i < 4 then 0 else i / 2 - 1
  {
  }

  // ---------------------------------------------------------------------------
  // Tokens and their meaning

  datatype Token =
    | Literal(value: byte)
    | Copy(lsym: nat, lextra: nat, dsym: nat, dextra: nat)

  predicate WellFormed(t: Token) {
    match t
    case Literal(_) => true
    case Copy(lsym, lextra, dsym, dextra) =>
      && IsLengthSymbol(lsym) && lextra < Pow2(LengthBits(lsym))
      && dsym < HDIST_TSIZE && dextra < Pow2(DistanceBits(dsym))
  }

  function CopyLength(t: Token): nat
    requires WellFormed(t) && t.Copy?
  {
    LengthBase(t.lsym) + t.lextra
  }

  function CopyDistance(t: Token): (d: nat)
    requires WellFormed(t) && t.Copy?
    ensures d > 0
  {
    DistancePositive(t.dsym);
    DistanceBase(t.dsym) + t.dextra
  }

  lemma {:induction false} DistancePositive(sym: nat)
    ensures DistanceBase(sym) > 0
  {
    if sym != 0 {
      DistancePositive(sym - 1);
    }
  }

  /** A token is valid after n bytes of output: a back reference must not reach before the start. */
  predicate Valid(t: Token, n: nat) {
    WellFormed(t) && (t.Copy? ==> CopyDistance(t) <= n)
  }

  /** The bytes of a back reference repeat with period distance when it overlaps itself. */
  function CopyBytes(out: seq<byte>, distance: nat, length: nat): (r: seq<byte>)
    requires 1 <= distance <= |out|
    ensures |r| == length
  {
    seq(length, k requires 0 <= k => out[|out| - distance + k % distance])
  }

  function Apply(out: seq<byte>, t: Token): (r: seq<byte>)
    requires Valid(t, |out|)
    ensures out <= r
  {
    match t
    case Literal(b) => out + [b]
    case Copy(_, _, _, _) => out + CopyBytes(out, CopyDistance(t), CopyLength(t))
  }

  predicate ValidTokens(out: seq<byte>, ts: seq<Token>)
    decreases |ts|, 0
  {
    |ts| == 0 || (ValidTokens(out, Front(ts)) && Valid(Last(ts), |Expand(out, Front(ts))|))
  }

  /** The output after the tokens. */
  function Expand(out: seq<byte>, ts: seq<Token>): (r: seq<byte>)
    requires ValidTokens(out, ts)
    decreases |ts|, 1
  {
    if |ts| == 0 then out else Apply(Expand(out, Front(ts)), Last(ts))
  }

  function Front<T>(s: seq<T>): seq<T>
    requires |s| > 0
  {
    s[..|s| - 1]
  }

  function Last<T>(s: seq<T>): T
    requires |s| > 0
  {
    s[|s| - 1]
  }

  // ---------------------------------------------------------------------------
  // Encoding

  /** The literal/length code and the distance code of a block. */
  datatype Codes = Codes(lit: Lengths, dist: Lengths)

  predicate CodesSized(c: Codes) {
    |c.lit| == HLIT_TSIZE && |c.dist| == HDIST_TSIZE
  }

  /** Symbol j has a code, and the code fits in its length. */
  predicate Fits(lens: Lengths, j: nat) {
    Used(lens, j) && CodeOf(lens, j) < Pow2(lens[j])
  }

  predicate Encodable(c: Codes, t: Token) {
    match t
    case Literal(b) => Fits(c.lit, b)
    case Copy(lsym, _, dsym, _) => Fits(c.lit, lsym) && Fits(c.dist, dsym)
  }

  /** The code of a literal, or a length code, its extra bits, a distance code and its extra bits. */
  function EncodeToken(c: Codes, t: Token): seq<bit>
    requires WellFormed(t) && Encodable(c, t)
  {
    match t
    case Literal(b) => Codeword(c.lit, b)
    case Copy(lsym, lextra, dsym, dextra) =>
      Codeword(c.lit, lsym) + (Lsb(lextra, LengthBits(lsym)) +
      (Codeword(c.dist, dsym) + Lsb(dextra, DistanceBits(dsym))))
  }

  predicate AllEncodable(c: Codes, ts: seq<Token>) {
    forall i :: 0 <= i < |ts| ==> WellFormed(ts[i]) && Encodable(c, ts[i])
  }

  function EncodeTokens(c: Codes, ts: seq<Token>): seq<bit>
    requires AllEncodable(c, ts)
  {
    if |ts| == 0 then [] else EncodeTokens(c, Front(ts)) + EncodeToken(c, Last(ts))
  }

  /** The tokens of a block followed by the end-of-block symbol. */
  function EncodeBody(c: Codes, ts: seq<Token>): seq<bit>
    requires AllEncodable(c, ts) && Fits(c.lit, END_OF_BLOCK)
  {
    EncodeTokens(c, ts) + Codeword(c.lit, END_OF_BLOCK)
  }

  // ---------------------------------------------------------------------------
  // Encodings in a stream, and why they can be read in one way only

  /** The stream holds the encoding of t at pos, part by part. */
  ghost predicate TokenAt(s: Source, pos: nat, c: Codes, t: Token) {
    match t
    case Literal(b) => CodeAt(s, pos, c.lit, b)
    case Copy(lsym, lextra, dsym, dextra) =>
      && WellFormed(t)
      && CodeAt(s, pos, c.lit, lsym)
      && var p1 := pos + c.lit[lsym];
      && Field(s, p1, LengthBits(lsym)) == lextra
      && var p2 := p1 + LengthBits(lsym);
      && CodeAt(s, p2, c.dist, dsym)
      && Field(s, p2 + c.dist[dsym], DistanceBits(dsym)) == dextra
  }

  function TokenBits(c: Codes, t: Token): nat
    requires WellFormed(t) && Encodable(c, t)
  {
    |EncodeToken(c, t)|
  }

  /** Parsing a token part by part agrees with finding its encoding. */
  lemma TokenAtEncoding(s: Source, pos: nat, c: Codes, t: Token)
    requires WellFormed(t) && Encodable(c, t)
    ensures TokenAt(s, pos, c, t) <==> At(s, pos, EncodeToken(c, t))
  {
    hide At, Msb, Lsb, CodeOf, LengthBase, LengthBits, DistanceBits, DistanceBase, Field;
    match t
    case Literal(b) =>
    case Copy(lsym, lextra, dsym, dextra) =>
      var a, b := Codeword(c.lit, lsym), Lsb(lextra, LengthBits(lsym));
      var d, e := Codeword(c.dist, dsym), Lsb(dextra, DistanceBits(dsym));
      AtConcat(s, pos, a, b + (d + e));
      AtConcat(s, pos + |a|, b, d + e);
      AtConcat(s, pos + |a| + |b|, d, e);
      AtLsb(s, pos + |a|, lextra, LengthBits(lsym));
      AtLsb(s, pos + |a| + |b| + |d|, dextra, DistanceBits(dsym));
  }

  function FirstSymbol(t: Token): nat {
    if t.Literal? then t.value else t.lsym
  }

  /** Every token at pos starts with the symbol found there. */
  lemma FirstSymbolAt(s: Source, pos: nat, c: Codes, sym: nat, t: Token)
    requires CodeAt(s, pos, c.lit, sym) && TokenAt(s, pos, c, t)
    ensures FirstSymbol(t) == sym
  {
    hide At, Codeword, CodeOf, Field, LengthBase, DistanceBase, LengthBits, DistanceBits;
    CodeUnique(s, pos, c.lit, FirstSymbol(t), sym);
  }

  /** The back reference at pos whose parts have been read one by one. */
  function CopyAt(s: Source, pos: nat, c: Codes, lsym: nat, dsym: nat): (t: Token)
    requires lsym < |c.lit| && dsym < |c.dist| && IsLengthSymbol(lsym)
  {
    var p1 := pos + c.lit[lsym];
    var p2 := p1 + LengthBits(lsym) + c.dist[dsym];
    Copy(lsym, Field(s, p1, LengthBits(lsym)), dsym, Field(s, p2, DistanceBits(dsym)))
  }

  lemma CopyAtIsToken(s: Source, pos: nat, c: Codes, lsym: nat, dsym: nat)
    requires CodesSized(c) && IsLengthSymbol(lsym)
    requires CodeAt(s, pos, c.lit, lsym)
    requires CodeAt(s, pos + c.lit[lsym] + LengthBits(lsym), c.dist, dsym)
    ensures var t := CopyAt(s, pos, c, lsym, dsym);
            && TokenAt(s, pos, c, t) && WellFormed(t) && Encodable(c, t)
            && TokenBits(c, t) == c.lit[lsym] + LengthBits(lsym) + c.dist[dsym] + DistanceBits(dsym)
  {
    hide At, CodeOf, LengthBase, DistanceBase, LengthBits, DistanceBits, Field;
    var p1 := pos + c.lit[lsym];
    FieldBound(s, p1, LengthBits(lsym));
    FieldBound(s, p1 + LengthBits(lsym) + c.dist[dsym], DistanceBits(dsym));
  }

  /** Where the input has no distance code after the length, there is no token. */
  lemma CopyAtOnly(s: Source, pos: nat, c: Codes, lsym: nat, t: Token)
    requires CodesSized(c) && CodeAt(s, pos, c.lit, lsym) && lsym > END_OF_BLOCK && TokenAt(s, pos, c, t)
    ensures IsLengthSymbol(lsym) && t.Copy? && t.lsym == lsym
    ensures CodeAt(s, pos + c.lit[lsym] + LengthBits(lsym), c.dist, t.dsym)
  {
    hide At, Codeword, CodeOf, Field, LengthBase, DistanceBase, LengthBits, DistanceBits;
    FirstSymbolAt(s, pos, c, lsym, t);
  }

  /** At most one token starts at any position. */
  lemma TokenUnique(s: Source, pos: nat, c: Codes, t: Token, t': Token)
    requires TokenAt(s, pos, c, t) && TokenAt(s, pos, c, t')
    ensures t == t'
  {
    hide At, Codeword, CodeOf, Field, LengthBase, DistanceBase, LengthBits, DistanceBits;
    CodeUnique(s, pos, c.lit, FirstSymbol(t), FirstSymbol(t'));
    if t.Copy? {
      var p2 := pos + c.lit[t.lsym] + LengthBits(t.lsym);
      CodeUnique(s, p2, c.dist, t.dsym, t'.dsym);
    }
  }

  /** From pos on the stream holds a block body: valid tokens after the output so far, within the input. */
  ghost predicate BodyAt(s: Source, pos: nat, c: Codes, out: seq<byte>, ts: seq<Token>) {
    && AllEncodable(c, ts) && Fits(c.lit, END_OF_BLOCK)
    && ValidTokens(out, ts)
    && At(s, pos, EncodeBody(c, ts))
    && pos + |EncodeBody(c, ts)| <= BitLength(s)
  }

  /** Token n of a body stands right after the first n tokens. */
  lemma {:induction false} BodyToken(s: Source, pos: nat, c: Codes, out: seq<byte>, ts: seq<Token>, n: nat)
    requires AllEncodable(c, ts) && ValidTokens(out, ts) && At(s, pos, EncodeTokens(c, ts))
    requires n < |ts|
    ensures AllEncodable(c, ts[..n]) && ValidTokens(out, ts[..n])
    ensures Valid(ts[n], |Expand(out, ts[..n])|)
    ensures |EncodeTokens(c, ts[..n])| + TokenBits(c, ts[n]) <= |EncodeTokens(c, ts)|
    ensures TokenAt(s, pos + |EncodeTokens(c, ts[..n])|, c, ts[n])
  {
    hide At, EncodeToken, TokenAt, Apply, Fits, Encodable, Valid;
    var front := Front(ts);
    AtConcat(s, pos, EncodeTokens(c, front), EncodeToken(c, Last(ts)));
    if n < |front| {
      BodyToken(s, pos, c, out, front, n);
      assert front[..n] == ts[..n];
    } else {
      assert ts[..n] == front;
      TokenAtEncoding(s, pos + |EncodeTokens(c, front)|, c, Last(ts));
    }
  }

  lemma BodyEnd(s: Source, pos: nat, c: Codes, out: seq<byte>, ts: seq<Token>)
    requires BodyAt(s, pos, c, out, ts)
    ensures At(s, pos, EncodeTokens(c, ts))
    ensures CodeAt(s, pos + |EncodeTokens(c, ts)|, c.lit, END_OF_BLOCK)
  {
    hide At, EncodeTokens, ValidTokens, Codeword, CodeOf;
    AtConcat(s, pos, EncodeTokens(c, ts), Codeword(c.lit, END_OF_BLOCK));
  }

  /** What stands in a body after its first n tokens: the next token, or the end of the block. */
  lemma BodyStep(s: Source, pos: nat, c: Codes, out: seq<byte>, ts: seq<Token>, n: nat)
    requires BodyAt(s, pos, c, out, ts) && n <= |ts|
    ensures AllEncodable(c, ts[..n]) && ValidTokens(out, ts[..n])
    ensures var p := pos + |EncodeTokens(c, ts[..n])|;
            if n < |ts| then
              && TokenAt(s, p, c, ts[n]) && Valid(ts[n], |Expand(out, ts[..n])|)
              && p + TokenBits(c, ts[n]) <= BitLength(s)
            else
              CodeAt(s, p, c.lit, END_OF_BLOCK)
  {
    hide At, TokenAt, EncodeTokens, ValidTokens, Expand, EncodeToken, Encodable, CodeAt, Valid, Fits, Codeword;
    BodyEnd(s, pos, c, out, ts);
    if n < |ts| {
      BodyToken(s, pos, c, out, ts, n);
    } else {
      assert ts[..n] == ts;
    }
  }

  /** A stream holds at most one block body at any position. */
  lemma BodyUnique(s: Source, pos: nat, c: Codes, out: seq<byte>, ts: seq<Token>, ts': seq<Token>)
    requires BodyAt(s, pos, c, out, ts) && BodyAt(s, pos, c, out, ts')
    ensures ts == ts'
  {
    BodyAgree(s, pos, c, out, ts, ts', |ts|);
    BodyAgree(s, pos, c, out, ts', ts, |ts'|);
    assert ts[..|ts|] == ts && ts'[..|ts'|] == ts';
  }

  lemma {:induction false} BodyAgree(s: Source, pos: nat, c: Codes, out: seq<byte>, ts: seq<Token>, ts': seq<Token>,
                                     k: nat)
    requires BodyAt(s, pos, c, out, ts) && BodyAt(s, pos, c, out, ts') && k <= |ts|
    ensures k <= |ts'| && ts[..k] == ts'[..k]
  {
    hide At, BodyAt, EncodeTokens, EncodeToken, ValidTokens, Expand, Codeword, CodeOf, Valid, Encodable, Fits;
    if k > 0 {
      BodyAgree(s, pos, c, out, ts, ts', k - 1);
      BodyStep(s, pos, c, out, ts, k - 1);
      BodyStep(s, pos, c, out, ts', k - 1);
      var p := pos + |EncodeTokens(c, ts[..k - 1])|;
      if k - 1 < |ts'| {
        TokenUnique(s, p, c, ts[k - 1], ts'[k - 1]);
      } else {
        CodeUnique(s, p, c.lit, FirstSymbol(ts[k - 1]), END_OF_BLOCK);
      }
    }
  }

  // ---------------------------------------------------------------------------
  // The state of a decoder inside a block

  /** From start to pos the stream holds the tokens done, which turned out0 into out. */
  ghost predicate Progress(s: Source, start: nat, c: Codes, out0: seq<byte>, done: seq<Token>, pos: nat,
                           out: seq<byte>) {
    && AllEncodable(c, done) && ValidTokens(out0, done)
    && At(s, start, EncodeTokens(c, done))
    && pos == start + |EncodeTokens(c, done)|
    && out == Expand(out0, done)
  }

  lemma ProgressToken(s: Source, start: nat, c: Codes, out0: seq<byte>, done: seq<Token>, pos: nat, out: seq<byte>,
                      t: Token)
    requires Progress(s, start, c, out0, done, pos, out)
    requires TokenAt(s, pos, c, t) && WellFormed(t) && Encodable(c, t) && Valid(t, |out|)
    ensures Progress(s, start, c, out0, done + [t], pos + TokenBits(c, t), Apply(out, t))
  {
    hide At, EncodeToken, TokenAt, Apply, Fits, Encodable, Valid, WellFormed;
    assert Front(done + [t]) == done && Last(done + [t]) == t;
    AtConcat(s, start, EncodeTokens(c, done), EncodeToken(c, t));
    TokenAtEncoding(s, pos, c, t);
  }

  lemma ProgressEnd(s: Source, start: nat, c: Codes, out0: seq<byte>, done: seq<Token>, pos: nat, out: seq<byte>)
    requires Progress(s, start, c, out0, done, pos, out)
    requires CodeAt(s, pos, c.lit, END_OF_BLOCK) && pos + c.lit[END_OF_BLOCK] <= BitLength(s)
    ensures BodyAt(s, start, c, out0, done)
    ensures pos + c.lit[END_OF_BLOCK] == start + |EncodeBody(c, done)|
  {
    hide At, EncodeTokens, ValidTokens, Expand, CodeOf;
    AtConcat(s, start, EncodeTokens(c, done), Codeword(c.lit, END_OF_BLOCK));
  }

  /** A decoder that has read a part of a body finds the next token, or the end of the block. */
  lemma ProgressInBody(s: Source, start: nat, c: Codes, out0: seq<byte>, done: seq<Token>, pos: nat, out: seq<byte>,
                       ts: seq<Token>)
    requires Progress(s, start, c, out0, done, pos, out)
    requires BodyAt(s, start, c, out0, ts) && done <= ts
    ensures if |done| < |ts| then
              && TokenAt(s, pos, c, ts[|done|]) && Valid(ts[|done|], |out|)
              && pos + TokenBits(c, ts[|done|]) <= BitLength(s)
            else
              CodeAt(s, pos, c.lit, END_OF_BLOCK) && pos + c.lit[END_OF_BLOCK] <= BitLength(s)
  {
    hide At, TokenAt, EncodeTokens, ValidTokens, Expand, EncodeToken, Encodable, CodeAt, Valid, Codeword, CodeOf;
    assert ts[..|done|] == done;
    BodyStep(s, start, c, out0, ts, |done|);
    if |done| == |ts| {
      assert done == ts;
    }
  }
}
