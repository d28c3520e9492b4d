// The blocks of section 3.2.3 of RFC 1951 and the member of section 2.3 of RFC 1952.
module BlockFormat {
  import opened Words
  import opened BitStream
  import opened HuffmanCode
  import opened DeflateFormat
  import opened DynamicHeader

  // ---------------------------------------------------------------------------
  // The fixed codes (section 3.2.6)

  function FixedLit(): (lens: Lengths)
    ensures |lens| == HLIT_TSIZE
  {
    seq(HLIT_TSIZE, i => if i < 144 then 8 else if i < 256 then 9 else if i < 280 then 7 else 8)
  }

  function FixedDist(): (lens: Lengths)
    ensures |lens| == HDIST_TSIZE
  {
    seq(HDIST_TSIZE, _ => 5)
  }

  function FixedCodes(): Codes {
    Codes(FixedLit(), FixedDist())
  }

  /** Counting codes over a stretch of symbols that all have the same length. */
  lemma {:induction false} CountStretch(lens: Lengths, len: nat, i: nat, j: nat, v: nat)
    requires i <= j <= |lens| && forall k :: i <= k < j ==> lens[k] == v
    ensures CountBefore(lens, len, j) == CountBefore(lens, len, i) + (if len == v then j - i else 0)
  {
    if i < j {
      CountStretch(lens, len, i, j - 1, v);
    }
  }

  lemma {:induction false} KraftStretch(lens: Lengths, i: nat, j: nat, v: nat)
    requires i <= j <= |lens| && 0 < v <= MAXBITS && forall k :: i <= k < j ==> lens[k] == v
    ensures KraftSum(lens, j) == KraftSum(lens, i) + (j - i) * Weight(v)
  {
    hide Weight;
    if i < j {
      KraftStretch(lens, i, j - 1, v);
      MulAdd(j - 1 - i, 1, Weight(v));
    }
  }

  lemma FixedCounts(len: nat)
    ensures Count(FixedLit(), len) == if len == 7 then 24 else if len == 8 then 152 else if len == 9 then 112 else 0
    ensures Count(FixedDist(), len) == if len == 5 then 30 else 0
  {
    CountStretch(FixedLit(), len, 0, 144, 8);
    CountStretch(FixedLit(), len, 144, 256, 9);
    CountStretch(FixedLit(), len, 256, 280, 7);
    CountStretch(FixedLit(), len, 280, 288, 8);
    CountStretch(FixedDist(), len, 0, 30, 5);
  }

  lemma {:induction false} NoShorterCodes(lens: Lengths, len: nat)
    requires forall l :: 0 < l < len ==> Count(lens, l) == 0
    ensures FirstCode(lens, len) == 0
  {
    if len > 1 {
      NoShorterCodes(lens, len - 1);
    }
  }

  lemma FixedFirstCodes()
    ensures FirstCode(FixedLit(), 7) == 0 && FirstCode(FixedLit(), 8) == 48 && FirstCode(FixedLit(), 9) == 400
    ensures FirstCode(FixedDist(), 5) == 0
  {
    hide CountBefore;
    forall l | 0 < l < 7 ensures Count(FixedLit(), l) == 0 {
      FixedCounts(l);
    }
    NoShorterCodes(FixedLit(), 7);
    FixedCounts(7);
    FixedCounts(8);
    forall l | 0 < l < 5 ensures Count(FixedDist(), l) == 0 {
      FixedCounts(l);
    }
    NoShorterCodes(FixedDist(), 5);
  }

  /** The canonical construction gives the table of codes of section 3.2.6. */
  lemma FixedCodeTable(j: nat)
    ensures j < 144 ==> CodeOf(FixedLit(), j) == 0x30 + j
    ensures 144 <= j < 256 ==> CodeOf(FixedLit(), j) == 0x190 + (j - 144)
    ensures 256 <= j < 280 ==> CodeOf(FixedLit(), j) == j - 256
    ensures 280 <= j < 288 ==> CodeOf(FixedLit(), j) == 0xC0 + (j - 280)
    ensures j < 30 ==> CodeOf(FixedDist(), j) == j
  {
    hide CountBefore, FirstCode;
    var lens := FixedLit();
    NoneBefore(lens);
    NoneBefore(FixedDist());
    FixedFirstCodes();
    if j < 144 {
      CountStretch(lens, 8, 0, j, 8);
    } else if j < 256 {
      CountStretch(lens, 9, 0, 144, 8);
      CountStretch(lens, 9, 144, j, 9);
    } else if j < 280 {
      CountStretch(lens, 7, 0, 144, 8);
      CountStretch(lens, 7, 144, 256, 9);
      CountStretch(lens, 7, 256, j, 7);
    } else if j < 288 {
      CountStretch(lens, 8, 0, 144, 8);
      CountStretch(lens, 8, 144, 256, 9);
      CountStretch(lens, 8, 256, 280, 7);
      CountStretch(lens, 8, 280, j, 8);
    }
    if j < 30 {
      CountStretch(FixedDist(), 5, 0, j, 5);
    }
  }

  lemma NoneBefore(lens: Lengths)
    ensures forall len: nat :: CountBefore(lens, len, 0) == 0
  {
  }

  /** The fixed literal/length code is complete, and the distance code leaves two codes unused. */
  lemma FixedKraft()
    ensures KraftSum(FixedLit(), HLIT_TSIZE) == Pow2(MAXBITS) && Kraft(FixedLit())
    ensures KraftSum(FixedDist(), HDIST_TSIZE) + 2 * Weight(5) == Pow2(MAXBITS) && Kraft(FixedDist())
  {
    hide KraftSum, Weight, Pow2;
    KraftNone(FixedLit());
    KraftNone(FixedDist());
    KraftStretch(FixedLit(), 0, 144, 8);
    KraftStretch(FixedLit(), 144, 256, 9);
    KraftStretch(FixedLit(), 256, 280, 7);
    KraftStretch(FixedLit(), 280, 288, 8);
    KraftStretch(FixedDist(), 0, 30, 5);
    FixedWeights();
  }

  lemma KraftNone(lens: Lengths)
    ensures KraftSum(lens, 0) == 0
  {
  }

  lemma FixedWeights()
    ensures Weight(5) == 1024 && Weight(7) == 256 && Weight(8) == 128 && Weight(9) == 64 && Pow2(MAXBITS) == 32768
  {
    assert Pow2(2) == 4 && Pow2(4) == 16 && Pow2(6) == 64 && Pow2(7) == 128 && Pow2(8) == 256;
    Pow2Add(5, 5);
    Pow2Add(10, 5);
  }

  lemma FixedFits(j: nat)
    ensures j < HLIT_TSIZE ==> Fits(FixedLit(), j)
    ensures j < HDIST_TSIZE ==> Fits(FixedDist(), j)
  {
    hide KraftSum, Weight, Pow2, CodeOf, Kraft;
    FixedKraft();
    if j < HLIT_TSIZE {
      CodeFits(FixedLit(), j);
    }
    if j < HDIST_TSIZE {
      CodeFits(FixedDist(), j);
    }
  }

  // ---------------------------------------------------------------------------
  // Blocks

  datatype Block =
    | Stored(pad: seq<bit>, data: seq<byte>)
    | Fixed(tokens: seq<Token>)
    | Dynamic(header: Header, tokens: seq<Token>)

  function BlockType(b: Block): nat {
    match b
    case Stored(_, _) => 0
    case Fixed(_) => 1
    case Dynamic(_, _) => 2
  }

  function EncodeBytes(data: seq<byte>): (bits: seq<bit>)
    ensures |bits| == 8 * |data|
  {
    if |data| == 0 then [] else EncodeBytes(Front(data)) + Lsb(Last(data), 8)
  }

  /** LEN, its complement NLEN, and the bytes. */
  function EncodeStored(data: seq<byte>): seq<bit>
    requires |data| < 65536
  {
    Lsb(|data|, 16) + (Lsb(65535 - |data|, 16) + EncodeBytes(data))
  }

  function DynamicCodes(h: Header): Codes
    requires HeaderOk(h)
  {
    Codes(LitLengths(h), DistLengths(h))
  }

  predicate BodyOk(c: Codes, out: seq<byte>, ts: seq<Token>) {
    AllEncodable(c, ts) && Fits(c.lit, END_OF_BLOCK) && ValidTokens(out, ts)
  }

  /** The block is valid at bit position pos, after the given output. A stored block is padded
      with up to seven arbitrary bits to a byte boundary. */
  predicate BlockOk(b: Block, pos: nat, out: seq<byte>) {
    match b
    case Stored(pad, data) => |data| < 65536 && |pad| < 8 && (pos + 3 + |pad|) % 8 == 0
    case Fixed(ts) => BodyOk(FixedCodes(), out, ts)
    case Dynamic(h, ts) => HeaderOk(h) && BodyOk(DynamicCodes(h), out, ts)
  }

  function EncodeContent(b: Block, pos: nat, out: seq<byte>): seq<bit>
    requires BlockOk(b, pos, out)
  {
    match b
    case Stored(pad, data) => pad + EncodeStored(data)
    case Fixed(ts) => EncodeBody(FixedCodes(), ts)
    case Dynamic(h, ts) => EncodeHeader(h) + EncodeBody(DynamicCodes(h), ts)
  }

  /** BFINAL, BTYPE and the content. */
  function EncodeBlock(final: bit, b: Block, pos: nat, out: seq<byte>): seq<bit>
    requires BlockOk(b, pos, out)
  {
    [final] + (Lsb(BlockType(b), 2) + EncodeContent(b, pos, out))
  }

  function ExpandBlock(b: Block, pos: nat, out: seq<byte>): seq<byte>
    requires BlockOk(b, pos, out)
  {
    match b
    case Stored(_, data) => out + data
    case Fixed(ts) => Expand(out, ts)
    case Dynamic(_, ts) => Expand(out, ts)
  }

  /** The stream holds the block at pos, within the input. */
  ghost predicate BlockAt(s: Source, pos: nat, final: bit, b: Block, out: seq<byte>) {
    && BlockOk(b, pos, out)
    && At(s, pos, EncodeBlock(final, b, pos, out))
    && pos + |EncodeBlock(final, b, pos, out)| <= BitLength(s)
  }

  function FinalBit(bs: seq<Block>): bit {
    if |bs| == 1 then 1 else 0
  }

  /** Every block is valid after the blocks before it. */
  predicate BlocksOk(bs: seq<Block>, pos: nat, out: seq<byte>)
    decreases |bs|
  {
    && |bs| > 0
    && BlockOk(bs[0], pos, out)
    && (|bs| > 1 ==> BlocksOk(bs[1..], BlockEnd(bs[0], pos, out), ExpandBlock(bs[0], pos, out)))
  }

  /** The position after a block. */
  function BlockEnd(b: Block, pos: nat, out: seq<byte>): nat
    requires BlockOk(b, pos, out)
  {
    pos + 3 + |EncodeContent(b, pos, out)|
  }

  /** The blocks one after the other; only the last one is marked as final. */
  function EncodeBlocks(bs: seq<Block>, pos: nat, out: seq<byte>): seq<bit>
    requires BlocksOk(bs, pos, out)
    decreases |bs|
  {
    var first := EncodeBlock(FinalBit(bs), bs[0], pos, out);
    if |bs| == 1 then first
    else first + EncodeBlocks(bs[1..], BlockEnd(bs[0], pos, out), ExpandBlock(bs[0], pos, out))
  }

  function ExpandBlocks(bs: seq<Block>, pos: nat, out: seq<byte>): seq<byte>
    requires BlocksOk(bs, pos, out)
    decreases |bs|
  {
    var out' := ExpandBlock(bs[0], pos, out);
    if |bs| == 1 then out' else ExpandBlocks(bs[1..], BlockEnd(bs[0], pos, out), out')
  }

  ghost predicate BlocksAt(s: Source, pos: nat, bs: seq<Block>, out: seq<byte>) {
    && BlocksOk(bs, pos, out)
    && At(s, pos, EncodeBlocks(bs, pos, out))
    && pos + |EncodeBlocks(bs, pos, out)| <= BitLength(s)
  }

  /** A stream of blocks is its first block followed by the stream of the others. */
  lemma FirstBlock(s: Source, pos: nat, bs: seq<Block>, out: seq<byte>)
    requires BlocksAt(s, pos, bs, out)
    ensures BlockAt(s, pos, FinalBit(bs), bs[0], out)
    ensures var pos', out' := BlockEnd(bs[0], pos, out), ExpandBlock(bs[0], pos, out);
            if |bs| == 1 then
              pos' == pos + |EncodeBlocks(bs, pos, out)| && out' == ExpandBlocks(bs, pos, out)
            else
              && BlocksAt(s, pos', bs[1..], out')
              && pos + |EncodeBlocks(bs, pos, out)| == pos' + |EncodeBlocks(bs[1..], pos', out')|
              && ExpandBlocks(bs, pos, out) == ExpandBlocks(bs[1..], pos', out')
  {
    hide At, EncodeContent, ExpandBlock, BlockOk;
    if |bs| > 1 {
      AtConcat(s, pos, EncodeBlock(FinalBit(bs), bs[0], pos, out),
               EncodeBlocks(bs[1..], BlockEnd(bs[0], pos, out), ExpandBlock(bs[0], pos, out)));
    }
  }

  /** The parts of a block. */
  lemma BlockParts(s: Source, pos: nat, final: bit, b: Block, out: seq<byte>)
    requires BlockAt(s, pos, final, b, out)
    ensures Field(s, pos, 1) == final && Field(s, pos + 1, 2) == BlockType(b)
    ensures At(s, pos + 3, EncodeContent(b, pos, out))
    ensures pos + 3 + |EncodeContent(b, pos, out)| == BlockEnd(b, pos, out) <= BitLength(s)
  {
    hide At, EncodeContent, BlockOk, Field;
    var c := EncodeContent(b, pos, out);
    AtConcat(s, pos, [final], Lsb(BlockType(b), 2) + c);
    AtConcat(s, pos + 1, Lsb(BlockType(b), 2), c);
    assert Pow2(1) == 2 && Pow2(2) == 4;
    assert Lsb(final, 1) == [final] by {
      assert Lsb(final / 2, 0) == [];
    }
    AtLsb(s, pos, final, 1);
    AtLsb(s, pos + 1, BlockType(b), 2);
  }

  /** The three bits before the content: 1 for the last block, and type 0 for stored bytes, 1 for the
      fixed codes, 2 for codes that the block brings along. */
  lemma TypeBits(s: Source, pos: nat, final: bit, b: Block, out: seq<byte>)
    requires BlockAt(s, pos, final, b, out)
    ensures Field(s, pos, 1) == final
    ensures Field(s, pos + 1, 2) == if b.Stored? then 0 else if b.Fixed? then 1 else 2
  {
    hide BlockAt, Field;
    BlockParts(s, pos, final, b, out);
  }

  lemma {:induction false} BytesAt(s: Source, pos: nat, data: seq<byte>, i: nat)
    requires At(s, pos, EncodeBytes(data)) && i < |data|
    ensures Field(s, pos + 8 * i, 8) == data[i]
  {
    hide At, Lsb, Field;
    AtConcat(s, pos, EncodeBytes(Front(data)), Lsb(Last(data), 8));
    if i < |data| - 1 {
      BytesAt(s, pos, Front(data), i);
    } else {
      assert Pow2(4) == 16 && Pow2(8) == 256;
      AtLsb(s, pos + 8 * i, data[i], 8);
    }
  }

  lemma StoredParts(s: Source, pos: nat, data: seq<byte>)
    requires |data| < 65536 && At(s, pos, EncodeStored(data))
    ensures Field(s, pos, 16) == |data| && Field(s, pos + 16, 16) == 65535 - |data|
    ensures forall i :: 0 <= i < |data| ==> Field(s, pos + 32 + 8 * i, 8) == data[i]
  {
    hide At, Lsb, Field, EncodeBytes;
    AtConcat(s, pos, Lsb(|data|, 16), Lsb(65535 - |data|, 16) + EncodeBytes(data));
    AtConcat(s, pos + 16, Lsb(65535 - |data|, 16), EncodeBytes(data));
    assert Pow2(4) == 16 && Pow2(8) == 256;
    Pow2Add(8, 8);
    AtLsb(s, pos, |data|, 16);
    AtLsb(s, pos + 16, 65535 - |data|, 16);
    forall i | 0 <= i < |data| ensures Field(s, pos + 32 + 8 * i, 8) == data[i] {
      BytesAt(s, pos + 32, data, i);
    }
  }

  /** The stream holds a header that the C code can read, and a body in its codes. */
  ghost predicate DynamicAt(s: Source, pos: nat, h: Header, ts: seq<Token>, out: seq<byte>) {
    HeaderAt(s, pos, h) && Safe(h) && BodyAt(s, pos + |EncodeHeader(h)|, DynamicCodes(h), out, ts)
  }

  /** The parts of a dynamic block. */
  lemma DynamicParts(s: Source, pos: nat, h: Header, ts: seq<Token>, out: seq<byte>)
    requires HeaderOk(h) && BodyOk(DynamicCodes(h), out, ts)
    requires At(s, pos, EncodeHeader(h) + EncodeBody(DynamicCodes(h), ts))
    requires pos + |EncodeHeader(h) + EncodeBody(DynamicCodes(h), ts)| <= BitLength(s)
    ensures HeaderAt(s, pos, h)
    ensures BodyAt(s, pos + |EncodeHeader(h)|, DynamicCodes(h), out, ts)
  {
    hide At, HeaderOk, EncodeHeader, EncodeBody, AllEncodable, Fits, ValidTokens, LitLengths, DistLengths;
    AtConcat(s, pos, EncodeHeader(h), EncodeBody(DynamicCodes(h), ts));
  }

  /** The headers of dynamic blocks are safe for the C code. */
  predicate SafeBlock(b: Block) {
    b.Dynamic? ==> Safe(b.header)
  }

  // ---------------------------------------------------------------------------
  // The member header of section 2.3 of RFC 1952

  /** The ten fixed bytes, and the optional fields in their order. */
  datatype Member = Member(
    id1: byte, id2: byte, cm: byte, flags: byte, mtimeXflOs: seq<byte>,
    extra: seq<byte>, name: seq<byte>, comment: seq<byte>, hcrc: seq<byte>)

  const FHCRC: nat := 1
  const FEXTRA: nat := 2
  const FNAME: nat := 3
  const FCOMMENT: nat := 4

  predicate NoZero(s: seq<byte>) {
    forall i :: 0 <= i < |s| ==> s[i] != 0
  }

  predicate MemberOk(m: Member) {
    && |m.mtimeXflOs| == 6
    && (if Bit(m.flags, FEXTRA) then |m.extra| < 65536 else m.extra == [])
    && (if Bit(m.flags, FNAME) then NoZero(m.name) else m.name == [])
    && (if Bit(m.flags, FCOMMENT) then NoZero(m.comment) else m.comment == [])
    && (if Bit(m.flags, FHCRC) then |m.hcrc| == 2 else m.hcrc == [])
  }

  /** XLEN and the extra bytes; a name or comment with its terminating zero. */
  function ExtraField(m: Member): seq<byte>
    requires MemberOk(m)
  {
    if Bit(m.flags, FEXTRA) then [|m.extra| % 256, |m.extra| / 256] + m.extra else []
  }

  function TextField(present: bool, text: seq<byte>): seq<byte> {
    if present then text + [0] else []
  }

  function MemberBytes(m: Member): seq<byte>
    requires MemberOk(m)
  {
    [m.id1, m.id2, m.cm, m.flags] + m.mtimeXflOs + ExtraField(m) +
    TextField(Bit(m.flags, FNAME), m.name) + TextField(Bit(m.flags, FCOMMENT), m.comment) + m.hcrc
  }
}
