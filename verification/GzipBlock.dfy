// deflate_huffman of source/tools/gzip/gzip.c: decoding the body of a compressed block.
module GzipBlock {
  import opened Words
  import opened BitStream
  import opened HuffmanCode
  import opened DeflateFormat
  import opened GzipIo

  /** Row i has the given code, and lies before the row with length 0 that ends the table. */
  ghost predicate RowAt(table: seq<Row>, i: nat, code: int) {
    i < |table| && table[i].code == code && forall k :: 0 <= k <= i ==> table[k].length != 0
  }

  /** The search for a row with the given code; the row with length 0 ends it. */
  method LookupRow(table: seq<Row>, code: int) returns (found: bool, row: Row)
    requires |table| > 1 && table[0].length != 0 && table[|table| - 1].length == 0
    ensures found <==> exists i: nat :: RowAt(table, i, code)
    ensures found ==> exists i: nat :: RowAt(table, i, code) && row == table[i]
  {
    var i := 0;
    row := table[0];
    while true
      invariant 0 <= i < |table|
      invariant forall k :: 0 <= k <= i ==> table[k].length != 0
      invariant forall k :: 0 <= k < i ==> table[k].code != code
      decreases |table| - i
    {
      if table[i].code == code {
        assert RowAt(table, i, code);
        return true, table[i];
      }
      i := i + 1;
      if table[i].length == 0 {
        break;
      }
    }
    found := false;
  }

  /** The rows of the length table are the length symbols. */
  lemma LengthRow(sym: int)
    requires 257 <= sym < HLIT_TSIZE
    ensures (exists i: nat :: RowAt(LENGTH_TABLE, i, sym)) <==> IsLengthSymbol(sym)
    ensures forall i: nat :: RowAt(LENGTH_TABLE, i, sym) ==>
              LENGTH_TABLE[i] == Row(sym, LengthBase(sym), LengthBits(sym))
  {
    LengthTable();
    hide LengthBase, LengthBits;
    forall k | 0 <= k < 29 ensures LENGTH_TABLE[k].length != 0 {
      LengthPositive(257 + k);
    }
    assert LENGTH_TABLE[29].length == 0;
    if IsLengthSymbol(sym) {
      assert RowAt(LENGTH_TABLE, sym - 257, sym);
    }
  }

  lemma LengthPositive(sym: nat)
    requires IsLengthSymbol(sym)
    ensures LengthBase(sym) > 0
  {
  }

  /** The rows of the distance table are the distance symbols. */
  lemma DistanceRow(sym: int)
    requires -1 <= sym < HDIST_TSIZE
    ensures (exists i: nat :: RowAt(DISTANCE_TABLE, i, sym)) <==> sym >= 0
    ensures forall i: nat :: RowAt(DISTANCE_TABLE, i, sym) ==>
              DISTANCE_TABLE[i] == Row(sym, DistanceBase(sym), DistanceBits(sym))
  {
    DistanceTable();
    hide DistanceBase, DistanceBits;
    forall k | 0 <= k < 30 ensures DISTANCE_TABLE[k].length != 0 {
      DistancePositive(k);
    }
    assert DISTANCE_TABLE[30].length == 0;
    if sym >= 0 {
      assert RowAt(DISTANCE_TABLE, sym, sym);
    }
  }

  /** The length that symbol sym starts; the C code leaves it unset for symbols without a row. */
  method ReadLength(io: Io, sym: int) returns (ok: bool, length: nat)
    requires 257 <= sym < HLIT_TSIZE
    modifies io`inPtr
    ensures ok <==> IsLengthSymbol(sym)
    ensures ok ==> length == LengthBase(sym) + Field(io.source, old(io.inPtr), LengthBits(sym))
    ensures ok ==> io.inPtr == old(io.inPtr) + LengthBits(sym)
  {
    LengthRow(sym);
    FieldEmpty(io.source, io.inPtr);
    hide LengthBase, LengthBits, Field, RowAt;
    var row;
    ok, row := LookupRow(LENGTH_TABLE, sym);
    length := row.length;
    if ok && row.readbits > 0 {
      var extra := io.ReadInput(row.readbits);
      length := length + extra;
    }
  }

  /** The distance that symbol sym starts; unset when sym is the error value -1. */
  method ReadDistance(io: Io, sym: int) returns (ok: bool, distance: nat)
    requires -1 <= sym < HDIST_TSIZE
    modifies io`inPtr
    ensures ok <==> sym >= 0
    ensures ok ==> distance == DistanceBase(sym) + Field(io.source, old(io.inPtr), DistanceBits(sym))
    ensures ok ==> io.inPtr == old(io.inPtr) + DistanceBits(sym)
  {
    DistanceRow(sym);
    FieldEmpty(io.source, io.inPtr);
    hide DistanceBase, DistanceBits, Field, RowAt;
    var row;
    ok, row := LookupRow(DISTANCE_TABLE, sym);
    distance := row.length;
    if ok && row.readbits > 0 {
      var extra := io.ReadInput(row.readbits);
      distance := distance + extra;
    }
  }

  /** The byte that lies distance bytes back is the next byte of the periodic continuation. */
  lemma CopyNext(before: seq<byte>, distance: nat, i: nat)
    requires 1 <= distance <= |before|
    ensures var now := before + CopyBytes(before, distance, i);
            CopyBytes(before, distance, i + 1) == CopyBytes(before, distance, i) + [now[|now| - distance]]
  {
    if i >= distance {
      ModMinus(i, distance);
    } else {
      SmallMod(i, distance);
    }
  }

  lemma CopyNone(before: seq<byte>, distance: nat)
    requires 1 <= distance <= |before|
    ensures CopyBytes(before, distance, 0) == []
  {
  }

  /** Copies byte by byte, so that a copy may run into the bytes it has just written. */
  method CopyBack(io: Io, length: nat, distance: nat)
    requires io.Valid() && 1 <= distance <= io.outLength
    modifies io`out, io`outLength, io`outSize, io.out
    ensures io.Valid() && io.Out() == old(io.Out()) + CopyBytes(old(io.Out()), distance, length)
    ensures io.out == old(io.out) || fresh(io.out)
  {
    hide CopyBytes;
    ghost var before := io.Out();
    ghost var n := |before|;
    CopyNone(before, distance);
    for i := 0 to length
      invariant io.Valid() && io.outLength == n + i
      invariant io.out == old(io.out) || fresh(io.out)
      invariant io.Out() == before + CopyBytes(before, distance, i)
    {
      CopyNext(before, distance, i);
      var ch := io.PeekOutput(distance);
      io.WriteOutput(ch);
    }
  }

  /** What one round of the loop of deflate_huffman does. */
  datatype Round = Token | EndOfBlock | NoCode | Unset

  /** No valid token and no end of block stands at pos. */
  ghost predicate Stuck(s: Source, pos: nat, c: Codes, n: nat) {
    && !CodeAt(s, pos, c.lit, END_OF_BLOCK)
    && forall u :: TokenAt(s, pos, c, u) ==> !Valid(u, n)
  }

  /** The back reference that starts with the length symbol lsym, whose code has been read. */
  method DecodeCopy(io: Io, lsym: int, hdistTree: HuffmanTree, ghost c: Codes, ghost pos: nat)
    returns (ok: bool, ghost t: Token)
    requires io.Valid() && CodesSized(c) && hdistTree.Encodes(c.dist)
    requires END_OF_BLOCK < lsym < HLIT_TSIZE && CodeAt(io.source, pos, c.lit, lsym)
    requires io.inPtr == pos + c.lit[lsym]
    modifies io, io.out
    ensures io.Valid() && (io.out == old(io.out) || fresh(io.out))
    ensures ok ==>
              && WellFormed(t) && Encodable(c, t) && Valid(t, |old(io.Out())|)
              && TokenAt(io.source, pos, c, t)
              && io.inPtr == pos + TokenBits(c, t)
              && io.Out() == Apply(old(io.Out()), t)
    ensures !ok ==> forall u :: TokenAt(io.source, pos, c, u) ==> !Valid(u, |old(io.Out())|)
  {
    hide At, CodeAt, TokenAt, Codeword, CodeOf, Field, LengthBase, DistanceBase, LengthBits, DistanceBits, CopyBytes;
    hide EncodeToken, Encodable, Fits, Used;
    ghost var s, n := io.source, |io.Out()|;
    t := Literal(0);
    forall u | TokenAt(s, pos, c, u)
      ensures IsLengthSymbol(lsym) && u.Copy? && CodeAt(s, pos + c.lit[lsym] + LengthBits(lsym), c.dist, u.dsym)
    {
      CopyAtOnly(s, pos, c, lsym, u);
    }
    var length, distance;
    ok, length := ReadLength(io, lsym);
    if !ok {
      return;
    }
    var dsym := io.DecodeOne(hdistTree, c.dist);
    ok, distance := ReadDistance(io, dsym);
    if !ok {
      return;
    }
    CopyAtIsToken(s, pos, c, lsym, dsym);
    t := CopyAt(s, pos, c, lsym, dsym);
    assert length == CopyLength(t) && distance == CopyDistance(t);
    ok := distance <= io.outLength;
    if !ok {
      forall u | TokenAt(s, pos, c, u) ensures u == t {
        TokenUnique(s, pos, c, t, u);
      }
      return;
    }
    CopyBack(io, length, distance);
  }

  /** The body of the loop of deflate_huffman: the literal, back reference or end of block at
      the input position.  It fails only where there is neither a valid token nor the end. */
  method DecodeToken(io: Io, hlitTree: HuffmanTree, hdistTree: HuffmanTree, ghost c: Codes)
    returns (r: Round, ghost t: Token)
    requires io.Valid() && CodesSized(c) && hlitTree.Encodes(c.lit) && hdistTree.Encodes(c.dist)
    modifies io, io.out
    ensures io.Valid() && (io.out == old(io.out) || fresh(io.out))
    ensures r.Token? ==>
              && WellFormed(t) && Encodable(c, t) && Valid(t, |old(io.Out())|)
              && TokenAt(io.source, old(io.inPtr), c, t)
              && io.inPtr == old(io.inPtr) + TokenBits(c, t)
              && io.Out() == Apply(old(io.Out()), t)
    ensures r.EndOfBlock? ==>
              && CodeAt(io.source, old(io.inPtr), c.lit, END_OF_BLOCK)
              && io.inPtr == old(io.inPtr) + c.lit[END_OF_BLOCK]
              && io.Out() == old(io.Out())
    ensures r.NoCode? || r.Unset? ==> Stuck(io.source, old(io.inPtr), c, |old(io.Out())|)
  {
    hide At, CodeAt, Codeword, CodeOf, Field, LengthBase, DistanceBase, LengthBits, DistanceBits, CopyBytes;
    ghost var s, pos := io.source, io.inPtr;
    t := Literal(0);
    var b := io.DecodeOne(hlitTree, c.lit);
    if b == -1 {
      r := NoCode;
    } else if b < 256 {
      io.WriteOutput(b);
      LiteralIsToken(s, pos, c, b);
      r, t := Round.Token, Literal(b);
    } else if b == 256 {
      r := EndOfBlock;
    } else {
      NotTheEnd(s, pos, c, b);
      var ok;
      ok, t := DecodeCopy(io, b, hdistTree, c, pos);
      r := if ok then Round.Token else Unset;
    }
  }

  /** deflate_huffman: decodes one block body.  It succeeds exactly on the encodings of valid
      tokens, and then the output has grown by what the tokens stand for. */
  method DeflateHuffman(io: Io, hlitTree: HuffmanTree, hdistTree: HuffmanTree, ghost c: Codes)
    returns (r: Status)
    requires io.Valid() && CodesSized(c) && hlitTree.Encodes(c.lit) && hdistTree.Encodes(c.dist)
    modifies io, io.out
    ensures io.Valid() && (io.out == old(io.out) || fresh(io.out))
    ensures r.Ok? <==> exists ts :: BodyAt(io.source, old(io.inPtr), c, old(io.Out()), ts)
    ensures forall ts :: BodyAt(io.source, old(io.inPtr), c, old(io.Out()), ts) ==>
              io.Out() == Expand(old(io.Out()), ts) && io.inPtr == old(io.inPtr) + |EncodeBody(c, ts)|
    ensures r.Ok? ==> io.inPtr >= old(io.inPtr)
  {
    hide At, CodeAt, TokenAt, BodyAt, EncodeTokens, EncodeToken, ValidTokens, Expand, Apply, Progress, Codeword,
         Encodable, Fits, Valid, AllEncodable, WellFormed, CodesSized, BitLength, EncodeBody;
    ghost var s, start, out0 := io.source, io.inPtr, io.Out();
    ghost var any := exists ts :: BodyAt(s, start, c, out0, ts);
    ghost var ts: seq<Token> := [];
    if any {
      ts :| BodyAt(s, start, c, out0, ts);
      BodyFits(s, start, c, out0, ts);
    }
    ghost var done: seq<Token> := [];
    ProgressStart(s, start, c, out0);
    while io.inPtr <= BitLength(io.source)
      invariant io.Valid() && (io.out == old(io.out) || fresh(io.out))
      invariant Progress(s, start, c, out0, done, io.inPtr, io.Out())
      invariant any ==> BodyAt(s, start, c, out0, ts) && done <= ts && io.inPtr <= BitLength(s)
      decreases BitLength(s) - io.inPtr
    {
      ghost var pos, out := io.inPtr, io.Out();
      if any {
        ProgressInBody(s, start, c, out0, done, pos, out, ts);
      }
      var round;
      ghost var t;
      round, t := DecodeToken(io, hlitTree, hdistTree, c);
      match round {
        case NoCode => return Bad;
        case Unset => return Fault;
        case EndOfBlock =>
          if any && |done| < |ts| {
            TokenNotEnd(s, pos, c, ts[|done|]);
          }
          if io.inPtr > BitLength(io.source) {
            return Fault;
          }
          ProgressEnd(s, start, c, out0, done, pos, out);
          forall ts' | BodyAt(s, start, c, out0, ts') ensures ts' == done {
            BodyUnique(s, start, c, out0, done, ts');
          }
          ProgressResult(s, start, c, out0, done, pos, out);
          return Ok;
        case Token =>
          ProgressToken(s, start, c, out0, done, pos, out, t);
          TokenTakesBits(s, pos, c, t);
          if any {
            if |done| < |ts| {
              TokenUnique(s, pos, c, t, ts[|done|]);
            } else {
              TokenNotEnd(s, pos, c, t);
            }
          }
          done := done + [t];
      }
    }
    return Fault;
  }

  lemma ProgressStart(s: Source, start: nat, c: Codes, out0: seq<byte>)
    ensures Progress(s, start, c, out0, [], start, out0)
  {
  }

  lemma BodyFits(s: Source, start: nat, c: Codes, out0: seq<byte>, ts: seq<Token>)
    requires BodyAt(s, start, c, out0, ts)
    ensures start <= BitLength(s)
  {
  }

  lemma ProgressResult(s: Source, start: nat, c: Codes, out0: seq<byte>, done: seq<Token>, pos: nat, out: seq<byte>)
    requires Progress(s, start, c, out0, done, pos, out)
    ensures ValidTokens(out0, done) && out == Expand(out0, done)
  {
  }

  lemma TokenTakesBits(s: Source, pos: nat, c: Codes, t: Token)
    requires WellFormed(t) && Encodable(c, t)
    ensures TokenBits(c, t) > 0
  {
  }

  lemma TokenNotEnd(s: Source, pos: nat, c: Codes, t: Token)
    requires TokenAt(s, pos, c, t)
    ensures !CodeAt(s, pos, c.lit, END_OF_BLOCK)
  {
    NotTheEnd(s, pos, c, FirstSymbol(t));
  }

  lemma LiteralIsToken(s: Source, pos: nat, c: Codes, b: byte)
    requires CodesSized(c) && CodeAt(s, pos, c.lit, b)
    ensures TokenAt(s, pos, c, Literal(b)) && Encodable(c, Literal(b)) && TokenBits(c, Literal(b)) == c.lit[b]
  {
  }

  lemma NotTheEnd(s: Source, pos: nat, c: Codes, sym: nat)
    requires CodeAt(s, pos, c.lit, sym) && sym != END_OF_BLOCK
    ensures !CodeAt(s, pos, c.lit, END_OF_BLOCK)
  {
    if CodeAt(s, pos, c.lit, END_OF_BLOCK) {
      CodeUnique(s, pos, c.lit, sym, END_OF_BLOCK);
    }
  }
}
