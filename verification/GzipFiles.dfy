// Whole files for the decoder of source/tools/gzip/gzip.c, byte by byte.
module GzipFiles {
  import opened Words
  import opened BitStream
  import opened HuffmanCode
  import opened DeflateFormat
  import opened DynamicHeader
  import opened BlockFormat
  import opened Gzip

  // ---------------------------------------------------------------------------
  // From bytes to bits

  /** A byte of the input as eight bits, least significant bit first. */
  lemma ByteBits(s: Source, i: nat)
    ensures At(s, 8 * i, Lsb(ByteAt(s, i), 8))
  {
    hide At, Lsb, Field;
    ByteField(s, i);
    assert Pow2(4) == 16 && Pow2(8) == 256;
    AtLsb(s, 8 * i, ByteAt(s, i), 8);
  }

  /** Two bytes of the input as 16 bits, low byte first. */
  lemma PairBits(s: Source, i: nat, v: nat)
    requires v < 65536 && ByteAt(s, i) == v % 256 && ByteAt(s, i + 1) == v / 256
    ensures At(s, 8 * i, Lsb(v, 16))
  {
    hide At, Lsb, Field, ByteAt;
    ByteField(s, i);
    ByteField(s, i + 1);
    FieldSplit(s, 8 * i, 8, 8);
    assert Pow2(4) == 16 && Pow2(8) == 256;
    Pow2Add(8, 8);
    AtLsb(s, 8 * i, v, 16);
  }

  lemma {:induction false} DataBits(s: Source, i: nat, data: seq<byte>)
    requires BytesIn(s, i, data)
    ensures At(s, 8 * i, EncodeBytes(data))
  {
    hide At, Lsb, ByteAt;
    if |data| > 0 {
      DataBits(s, i, Front(data));
      ByteBits(s, i + |data| - 1);
      assert ByteAt(s, i + (|data| - 1)) == Last(data);
      AtConcat(s, 8 * i, EncodeBytes(Front(data)), Lsb(Last(data), 8));
    } else {
      NoBitsAt(s, 8 * i);
    }
  }

  lemma NoBitsAt(s: Source, pos: nat)
    ensures At(s, pos, [])
  {
  }

  lemma LsbFour(v: nat, n: nat)
    requires n >= 4
    ensures Lsb(v, n) == [v % 2, v / 2 % 2, v / 4 % 2, v / 8 % 2] + Lsb(v / 16, n - 4)
  {
    hide Lsb;
    LsbTwo(v, n);
    LsbTwo(v / 4, n - 2);
    assert v / 4 / 2 == v / 8 && v / 4 / 4 == v / 16;
    assert [v % 2, v / 2 % 2] + ([v / 4 % 2, v / 8 % 2] + Lsb(v / 16, n - 4)) ==
           [v % 2, v / 2 % 2, v / 4 % 2, v / 8 % 2] + Lsb(v / 16, n - 4);
  }

  lemma LsbTwo(v: nat, n: nat)
    requires n >= 2
    ensures Lsb(v, n) == [v % 2, v / 2 % 2] + Lsb(v / 4, n - 2)
  {
    hide Lsb;
    LsbStep(v, n);
    LsbStep(v / 2, n - 1);
    assert v / 2 / 2 == v / 4;
    assert [v % 2] + ([v / 2 % 2] + Lsb(v / 4, n - 2)) == [v % 2, v / 2 % 2] + Lsb(v / 4, n - 2);
  }

  lemma LsbStep(v: nat, n: nat)
    requires n > 0
    ensures Lsb(v, n) == [v % 2] + Lsb(v / 2, n - 1)
  {
  }

  lemma LsbNone(v: nat)
    ensures Lsb(v, 0) == []
  {
  }

  lemma LsbEight(v: nat)
    ensures Lsb(v, 8) == [v % 2, v / 2 % 2, v / 4 % 2, v / 8 % 2, v / 16 % 2, v / 32 % 2, v / 64 % 2, v / 128 % 2]
  {
    hide Lsb;
    LsbFour(v, 8);
    LsbFour(v / 16, 4);
    var w := v / 16;
    assert w / 2 == v / 32 && w / 4 == v / 64 && w / 8 == v / 128;
    LsbNone(w / 16);
    TwoFours(v % 2, v / 2 % 2, v / 4 % 2, v / 8 % 2, w % 2, w / 2 % 2, w / 4 % 2, w / 8 % 2);
  }

  lemma TwoFours(a: bit, b: bit, c: bit, d: bit, e: bit, f: bit, g: bit, h: bit)
    ensures [a, b, c, d] + ([e, f, g, h] + []) == [a, b, c, d, e, f, g, h]
  {
  }

  lemma EightBits(v: nat)
    requires v < 2
    ensures Lsb(v, 8) == [v, 0, 0, 0, 0, 0, 0, 0] && Lsb(0, 2) == [0, 0]
  {
    hide Lsb;
    LsbEight(v);
    LsbStep(0, 2);
    LsbStep(0, 1);
    LsbNone(0);
  }

  // ---------------------------------------------------------------------------
  // Stored blocks

  /** A stored block that starts at a byte: 1 for the last block and 0 for others, the length and its
      complement with the low byte first, and the bytes. */
  function StoredBytes(final: bool, data: seq<byte>): seq<byte>
    requires |data| < 65536
  {
    [if final then 1 else 0, |data| % 256, |data| / 256, 255 - |data| % 256, 255 - |data| / 256] + data
  }

  function StoredBlock(data: seq<byte>): Block {
    Stored([0, 0, 0, 0, 0], data)
  }

  lemma StoredAt(s: Source, i: nat, final: bool, data: seq<byte>, out: seq<byte>)
    requires |data| < 65536 && BytesIn(s, i, StoredBytes(final, data)) && i + 5 + |data| <= |s.data|
    ensures BlockAt(s, 8 * i, if final then 1 else 0, StoredBlock(data), out)
    ensures BlockEnd(StoredBlock(data), 8 * i, out) == 8 * (i + 5 + |data|)
    ensures ExpandBlock(StoredBlock(data), 8 * i, out) == out + data
  {
    hide At, Lsb, ByteAt;
    var bytes, f: bit := StoredBytes(final, data), if final then 1 else 0;
    assert ByteAt(s, i + 0) == bytes[0] && ByteAt(s, i + 1) == bytes[1] && ByteAt(s, i + 2) == bytes[2];
    assert ByteAt(s, i + 3) == bytes[3] && ByteAt(s, i + 4) == bytes[4];
    ByteBits(s, i);
    EightBits(f);
    PairBits(s, i + 1, |data|);
    PairBits(s, i + 3, 65535 - |data|);
    assert BytesIn(s, i + 5, data) by {
      forall k | 0 <= k < |data| ensures ByteAt(s, i + 5 + k) == data[k] {
        assert bytes[5 + k] == data[k] && ByteAt(s, i + (5 + k)) == bytes[5 + k];
      }
    }
    DataBits(s, i + 5, data);
    var c, d, e := Lsb(|data|, 16), Lsb(65535 - |data|, 16), EncodeBytes(data);
    AtConcat(s, 8 * i + 24, d, e);
    AtConcat(s, 8 * i + 8, c, d + e);
    AtConcat(s, 8 * i, Lsb(f, 8), c + (d + e));
    StoredEncoding(f, data, 8 * i, out);
  }

  lemma StoredEncoding(f: bit, data: seq<byte>, pos: nat, out: seq<byte>)
    requires |data| < 65536 && pos % 8 == 0
    ensures BlockOk(StoredBlock(data), pos, out)
    ensures EncodeBlock(f, StoredBlock(data), pos, out) == Lsb(f, 8) + EncodeStored(data)
    ensures |EncodeStored(data)| == 32 + 8 * |data|
  {
    hide Lsb, EncodeStored;
    EightBits(f);
    StoredLength(data);
    var rest := EncodeStored(data);
    assert [f] + ([0, 0] + ([0, 0, 0, 0, 0] + rest)) == [f, 0, 0, 0, 0, 0, 0, 0] + rest;
  }

  /** The blocks for a sequence of pieces of data, each shorter than 64 KB. */
  function AllStored(pieces: seq<seq<byte>>): seq<byte>
    requires forall k :: 0 <= k < |pieces| ==> |pieces[k]| < 65536
  {
    if |pieces| == 0 then [] else StoredBytes(|pieces| == 1, pieces[0]) + AllStored(pieces[1..])
  }

  function StoredBlocks(pieces: seq<seq<byte>>): (bs: seq<Block>)
    ensures |bs| == |pieces|
  {
    if |pieces| == 0 then [] else [StoredBlock(pieces[0])] + StoredBlocks(pieces[1..])
  }

  function Flatten(pieces: seq<seq<byte>>): seq<byte> {
    if |pieces| == 0 then [] else pieces[0] + Flatten(pieces[1..])
  }

  /** The first piece and the others. */
  lemma PiecesStep(pieces: seq<seq<byte>>)
    requires |pieces| > 0 && forall k :: 0 <= k < |pieces| ==> |pieces[k]| < 65536
    ensures AllStored(pieces) == StoredBytes(|pieces| == 1, pieces[0]) + AllStored(pieces[1..])
    ensures StoredBlocks(pieces)[0] == StoredBlock(pieces[0]) && StoredBlocks(pieces)[1..] == StoredBlocks(pieces[1..])
    ensures forall out: seq<byte> :: out + Flatten(pieces) == out + pieces[0] + Flatten(pieces[1..])
    ensures |pieces| == 1 ==> Flatten(pieces) == pieces[0]
  {
    hide StoredBytes, StoredBlock;
    forall out: seq<byte> ensures out + Flatten(pieces) == out + pieces[0] + Flatten(pieces[1..]) {
      assert Flatten(pieces) == pieces[0] + Flatten(pieces[1..]);
    }
  }

  lemma {:induction false} StoredReadable(s: Source, i: nat, pieces: seq<seq<byte>>, out: seq<byte>)
    requires |pieces| > 0 && forall k :: 0 <= k < |pieces| ==> |pieces[k]| < 65536
    requires BytesIn(s, i, AllStored(pieces)) && i + |AllStored(pieces)| <= |s.data|
    ensures Readable(s, 8 * i, StoredBlocks(pieces), out)
    ensures ExpandBlocks(StoredBlocks(pieces), 8 * i, out) == out + Flatten(pieces)
    decreases |pieces|
  {
    hide At, BlockAt, BlocksAt, BytesIn, EncodeBlock, BlockOk, BlockEnd, ExpandBlock, AllStored, StoredBlocks, Flatten;
    var bs, first, rest := StoredBlocks(pieces), StoredBytes(|pieces| == 1, pieces[0]), AllStored(pieces[1..]);
    PiecesStep(pieces);
    BytesConcat(s, i, first, rest);
    StoredAt(s, i, |pieces| == 1, pieces[0], out);
    if |pieces| > 1 {
      StoredReadable(s, i + |first|, pieces[1..], out + pieces[0]);
    }
    BlocksFromParts(s, 8 * i, bs, out);
  }

  /** A block followed by blocks is a sequence of blocks. */
  lemma BlocksFromParts(s: Source, pos: nat, bs: seq<Block>, out: seq<byte>)
    requires |bs| > 0 && BlockAt(s, pos, FinalBit(bs), bs[0], out)
    requires |bs| > 1 ==> BlocksAt(s, BlockEnd(bs[0], pos, out), bs[1..], ExpandBlock(bs[0], pos, out))
    ensures BlocksAt(s, pos, bs, out)
  {
    hide At, EncodeContent, ExpandBlock, BlockOk;
    if |bs| > 1 {
      AtConcat(s, pos, EncodeBlock(FinalBit(bs), bs[0], pos, out),
               EncodeBlocks(bs[1..], BlockEnd(bs[0], pos, out), ExpandBlock(bs[0], pos, out)));
    }
  }

  // ---------------------------------------------------------------------------
  // Files

  /** The optional fields of a file, each with its flag: extra (4), name (8), comment (16), header CRC (2). */
  datatype Options = Options(flags: byte, extra: seq<byte>, name: seq<byte>, comment: seq<byte>, crc: seq<byte>)

  predicate OptionsOk(o: Options) {
    && (if o.flags / 4 % 2 == 1 then |o.extra| < 65536 else o.extra == [])
    && (if o.flags / 8 % 2 == 1 then 0 !in o.name else o.name == [])
    && (if o.flags / 16 % 2 == 1 then 0 !in o.comment else o.comment == [])
    && (if o.flags / 2 % 2 == 1 then |o.crc| == 2 else o.crc == [])
  }

  /** The bytes before the first block: 1F, 8B, 8, the flags, time, extra flags and system in six bytes, and
      the optional fields. */
  function HeaderBytes(o: Options, six: seq<byte>): seq<byte>
    requires OptionsOk(o)
  {
    [0x1F, 0x8B, 8, o.flags] + six +
    (if o.flags / 4 % 2 == 1 then [|o.extra| % 256, |o.extra| / 256] + o.extra else []) +
    (if o.flags / 8 % 2 == 1 then o.name + [0] else []) +
    (if o.flags / 16 % 2 == 1 then o.comment + [0] else []) +
    o.crc
  }

  function MemberOf(o: Options, six: seq<byte>): Member {
    Member(0x1F, 0x8B, 8, o.flags, six, o.extra, o.name, o.comment, o.crc)
  }

  lemma MemberIs(o: Options, six: seq<byte>)
    requires OptionsOk(o) && |six| == 6
    ensures MemberOk(MemberOf(o, six)) && MemberBytes(MemberOf(o, six)) == HeaderBytes(o, six)
  {
    hide Bit;
    BitValue(o.flags, 1);
    BitValue(o.flags, 2);
    BitValue(o.flags, 3);
    BitValue(o.flags, 4);
    assert Pow2(1) == 2 && Pow2(2) == 4 && Pow2(3) == 8 && Pow2(4) == 16;
  }

  /** A file of any optional fields, stored blocks, and whatever follows them is one that gzip_decode reads,
      and what its blocks stand for is the data. */
  lemma StoredFile(s: Source, o: Options, six: seq<byte>, pieces: seq<seq<byte>>, trailer: seq<byte>)
    requires OptionsOk(o) && |six| == 6
    requires |pieces| > 0 && forall k :: 0 <= k < |pieces| ==> |pieces[k]| < 65536
    requires s.data == HeaderBytes(o, six) + AllStored(pieces) + trailer
    ensures HeaderIn(s, MemberOf(o, six)) && |MemberBytes(MemberOf(o, six))| == |HeaderBytes(o, six)|
    ensures Readable(s, 8 * |HeaderBytes(o, six)|, StoredBlocks(pieces), [])
    ensures ExpandBlocks(StoredBlocks(pieces), 8 * |HeaderBytes(o, six)|, []) == Flatten(pieces)
  {
    hide MemberOk, MemberBytes, HeaderBytes, OptionsOk, AllStored, Readable, ExpandBlocks, Flatten, ByteAt;
    var head, blocks := HeaderBytes(o, six), AllStored(pieces);
    MemberIs(o, six);
    StartsWith(s, s.data);
    assert s.data == head + (blocks + trailer);
    BytesConcat(s, 0, head, blocks + trailer);
    BytesConcat(s, |head|, blocks, trailer);
    StoredReadable(s, |head|, pieces, []);
    assert [] + Flatten(pieces) == Flatten(pieces);
  }

  // ---------------------------------------------------------------------------
  // A compressed file

  /** "ab", and a back reference of length 12 over distance 2, in the fixed codes. */
  const SAMPLE: seq<byte> := [0x4B, 0x4C, 0x42, 0x86, 0x00]

  const SAMPLE_TOKENS: seq<Token> := [Literal(97), Literal(98), Copy(265, 1, 1, 0)]

  lemma MsbFour(v: nat, n: nat)
    requires n >= 4
    ensures Msb(v, n) == Msb(v / 16, n - 4) + [v / 8 % 2, v / 4 % 2, v / 2 % 2, v % 2]
  {
    MsbStep(v, n);
    MsbStep(v / 2, n - 1);
    MsbStep(v / 4, n - 2);
    MsbStep(v / 8, n - 3);
    hide Msb;
  }

  lemma MsbStep(v: nat, n: nat)
    requires n > 0
    ensures Msb(v, n) == Msb(v / 2, n - 1) + [v % 2]
  {
  }

  lemma MsbNone(v: nat)
    ensures Msb(v, 0) == []
  {
  }

  /** The code words of the sample. */
  lemma SampleCodes()
    ensures Codeword(FixedLit(), 97) == [1, 0, 0, 1, 0, 0, 0, 1]
    ensures Codeword(FixedLit(), 98) == [1, 0, 0, 1, 0, 0, 1, 0]
    ensures Codeword(FixedLit(), 265) == [0, 0, 0, 1, 0, 0, 1]
    ensures Codeword(FixedLit(), 256) == [0, 0, 0, 0, 0, 0, 0]
    ensures Codeword(FixedDist(), 1) == [0, 0, 0, 0, 1]
  {
    hide Msb, CodeOf;
    FixedCodeTable(97);
    FixedCodeTable(98);
    FixedCodeTable(265);
    FixedCodeTable(256);
    FixedCodeTable(1);
    MsbFour(0x91, 8);
    MsbFour(0x9, 4);
    MsbFour(0x92, 8);
    MsbFour(9, 7);
    MsbStep(0, 3);
    MsbStep(0, 2);
    MsbStep(0, 1);
    MsbFour(0, 7);
    MsbFour(1, 5);
    MsbNone(0);
  }

  /** A part of bits that stand in the input. */
  lemma AtSlice(s: Source, pos: nat, bits: seq<bit>, a: nat, b: nat)
    requires At(s, pos, bits) && a <= b <= |bits|
    ensures At(s, pos + a, bits[a..b])
  {
    hide BitAt;
    forall k | 0 <= k < b - a ensures BitAt(s, pos + a + k) == bits[a..b][k] {
      assert BitAt(s, pos + (a + k)) == bits[a + k];
    }
  }

  /** The eight bits of byte i. */
  lemma LiteralByte(s: Source, i: nat, v: nat, bits: seq<bit>)
    requires ByteAt(s, i) == v
    requires bits == [v % 2, v / 2 % 2, v / 4 % 2, v / 8 % 2, v / 16 % 2, v / 32 % 2, v / 64 % 2, v / 128 % 2]
    ensures At(s, 8 * i, bits)
  {
    hide At, Lsb;
    ByteBits(s, i);
    LsbEight(v);
  }

  lemma SampleBits(s: Source, i: nat)
    requires BytesIn(s, i, SAMPLE)
    ensures At(s, 8 * i, [1, 1, 0]) && At(s, 8 * i + 3, [1, 0, 0, 1, 0, 0, 0, 1])
    ensures At(s, 8 * i + 11, [1, 0, 0, 1, 0, 0, 1, 0])
    ensures At(s, 8 * i + 19, [0, 0, 0, 1, 0, 0, 1]) && At(s, 8 * i + 26, [1])
    ensures At(s, 8 * i + 27, [0, 0, 0, 0, 1]) && At(s, 8 * i + 32, [0, 0, 0, 0, 0, 0, 0])
  {
    hide At, ByteAt, Lsb;
    assert ByteAt(s, i + 0) == SAMPLE[0] && ByteAt(s, i + 1) == SAMPLE[1] && ByteAt(s, i + 2) == SAMPLE[2];
    assert ByteAt(s, i + 3) == SAMPLE[3] && ByteAt(s, i + 4) == SAMPLE[4];
    LiteralByte(s, i, 0x4B, [1, 1, 0, 1, 0, 0, 1, 0]);
    LiteralByte(s, i + 1, 0x4C, [0, 0, 1, 1, 0, 0, 1, 0]);
    LiteralByte(s, i + 2, 0x42, [0, 1, 0, 0, 0, 0, 1, 0]);
    LiteralByte(s, i + 3, 0x86, [0, 1, 1, 0, 0, 0, 0, 1]);
    LiteralByte(s, i + 4, 0x00, [0, 0, 0, 0, 0, 0, 0, 0]);
    SampleLiterals(s, 8 * i);
    SampleCopy(s, 8 * i + 16);
  }

  /** Bits that begin with the fourth one of a byte. */
  lemma Across(a: seq<bit>, b: seq<bit>)
    requires |a| == 8 && |b| == 8
    ensures (a + b)[3..11] == [a[3], a[4], a[5], a[6], a[7], b[0], b[1], b[2]]
    ensures (a + b)[3..10] == [a[3], a[4], a[5], a[6], a[7], b[0], b[1]]
  {
  }

  lemma SampleLiterals(s: Source, pos: nat)
    requires At(s, pos, [1, 1, 0, 1, 0, 0, 1, 0]) && At(s, pos + 8, [0, 0, 1, 1, 0, 0, 1, 0])
    requires At(s, pos + 16, [0, 1, 0, 0, 0, 0, 1, 0])
    ensures At(s, pos, [1, 1, 0]) && At(s, pos + 3, [1, 0, 0, 1, 0, 0, 0, 1])
    ensures At(s, pos + 11, [1, 0, 0, 1, 0, 0, 1, 0])
  {
    hide At;
    var b0, b1, b2: seq<bit> := [1, 1, 0, 1, 0, 0, 1, 0], [0, 0, 1, 1, 0, 0, 1, 0], [0, 1, 0, 0, 0, 0, 1, 0];
    AtSlice(s, pos, b0, 0, 3);
    assert b0[0..3] == [1, 1, 0];
    AtConcat(s, pos, b0, b1);
    AtSlice(s, pos, b0 + b1, 3, 11);
    Across(b0, b1);
    AtConcat(s, pos + 8, b1, b2);
    AtSlice(s, pos + 8, b1 + b2, 3, 11);
    Across(b1, b2);
  }

  lemma SampleCopy(s: Source, pos: nat)
    requires At(s, pos, [0, 1, 0, 0, 0, 0, 1, 0]) && At(s, pos + 8, [0, 1, 1, 0, 0, 0, 0, 1])
    requires At(s, pos + 16, [0, 0, 0, 0, 0, 0, 0, 0])
    ensures At(s, pos + 3, [0, 0, 0, 1, 0, 0, 1]) && At(s, pos + 10, [1])
    ensures At(s, pos + 11, [0, 0, 0, 0, 1]) && At(s, pos + 16, [0, 0, 0, 0, 0, 0, 0])
  {
    hide At;
    var b2, b3, b4: seq<bit> := [0, 1, 0, 0, 0, 0, 1, 0], [0, 1, 1, 0, 0, 0, 0, 1], [0, 0, 0, 0, 0, 0, 0, 0];
    AtConcat(s, pos, b2, b3);
    AtSlice(s, pos, b2 + b3, 3, 10);
    Across(b2, b3);
    AtSlice(s, pos + 8, b3, 2, 3);
    AtSlice(s, pos + 8, b3, 3, 8);
    assert b3[2..3] == [1] && b3[3..8] == [0, 0, 0, 0, 1];
    AtSlice(s, pos + 16, b4, 0, 7);
    assert b4[0..7] == [0, 0, 0, 0, 0, 0, 0];
  }

  /** The sample at a byte is a final block in the fixed codes, and stands for "ab" seven times. */
  lemma SampleReads(s: Source, i: nat, out: seq<byte>)
    requires BytesIn(s, i, SAMPLE) && i + 5 <= |s.data|
    ensures Readable(s, 8 * i, [Fixed(SAMPLE_TOKENS)], out)
    ensures ExpandBlocks([Fixed(SAMPLE_TOKENS)], 8 * i, out) ==
            out + [97, 98, 97, 98, 97, 98, 97, 98, 97, 98, 97, 98, 97, 98]
  {
    hide At, EncodeBody, Expand, ValidTokens, AllEncodable, Fits, FixedLit, FixedDist, Lsb;
    var ts := SAMPLE_TOKENS;
    SampleBits(s, i);
    SampleExpand(out);
    SampleEncoding();
    assert [1] + Lsb(1, 2) == [1, 1, 0] by {
      LsbStep(1, 2);
      LsbStep(0, 1);
      LsbNone(0);
    }
    SampleBody(s, 8 * i + 3);
    AtConcat(s, 8 * i, [1, 1, 0], EncodeBody(FixedCodes(), ts));
    assert [1] + (Lsb(1, 2) + EncodeBody(FixedCodes(), ts)) == [1, 1, 0] + EncodeBody(FixedCodes(), ts);
    assert BlockAt(s, 8 * i, 1, Fixed(ts), out);
    BlocksFromParts(s, 8 * i, [Fixed(ts)], out);
  }

  lemma SampleExpand(out: seq<byte>)
    ensures ValidTokens(out, SAMPLE_TOKENS)
    ensures Expand(out, SAMPLE_TOKENS) == out + [97, 98, 97, 98, 97, 98, 97, 98, 97, 98, 97, 98, 97, 98]
  {
    hide CopyBytes, LengthBase, LengthBits, DistanceBase, DistanceBits, Pow2, ValidTokens, Expand;
    SampleCopyToken();
    ExpandNone(out);
    ExpandSnoc(out, [], Literal(97));
    assert [] + [Literal(97)] == [Literal(97)];
    ExpandSnoc(out, [Literal(97)], Literal(98));
    assert [Literal(97)] + [Literal(98)] == [Literal(97), Literal(98)];
    assert out + [97] + [98] == out + [97, 98];
    ExpandSnoc(out, [Literal(97), Literal(98)], Copy(265, 1, 1, 0));
    assert [Literal(97), Literal(98)] + [Copy(265, 1, 1, 0)] == SAMPLE_TOKENS;
    SamplePeriod(out);
  }

  lemma SampleCopyToken()
    ensures WellFormed(Copy(265, 1, 1, 0))
    ensures CopyLength(Copy(265, 1, 1, 0)) == 12 && CopyDistance(Copy(265, 1, 1, 0)) == 2
    ensures LengthBits(265) == 1 && DistanceBits(1) == 0
  {
    hide LengthBase, DistanceBase;
    LengthBases();
    DistanceBases();
  }

  lemma SamplePeriod(out: seq<byte>)
    ensures (out + [97, 98]) + CopyBytes(out + [97, 98], 2, 12) ==
            out + [97, 98, 97, 98, 97, 98, 97, 98, 97, 98, 97, 98, 97, 98]
  {
    var ab: seq<byte> := out + [97, 98];
    var copy: seq<byte> := [97, 98, 97, 98, 97, 98, 97, 98, 97, 98, 97, 98];
    forall k | 0 <= k < 12 ensures CopyBytes(ab, 2, 12)[k] == copy[k] {
      assert ab[|ab| - 2 + k % 2] == copy[k];
    }
    assert CopyBytes(ab, 2, 12) == copy;
    assert ab + copy == out + ([97, 98] + copy);
  }

  lemma ExpandNone(out: seq<byte>)
    ensures ValidTokens(out, []) && Expand(out, []) == out
  {
  }

  lemma ExpandSnoc(out: seq<byte>, ts: seq<Token>, t: Token)
    requires ValidTokens(out, ts) && Valid(t, |Expand(out, ts)|)
    ensures ValidTokens(out, ts + [t]) && Expand(out, ts + [t]) == Apply(Expand(out, ts), t)
  {
    hide Apply, Valid;
    assert Front(ts + [t]) == ts && Last(ts + [t]) == t;
  }

  lemma EncodeSnoc(c: Codes, ts: seq<Token>, t: Token)
    requires AllEncodable(c, ts) && WellFormed(t) && Encodable(c, t)
    ensures AllEncodable(c, ts + [t]) && EncodeTokens(c, ts + [t]) == EncodeTokens(c, ts) + EncodeToken(c, t)
  {
    hide EncodeToken, Encodable, WellFormed;
    assert Front(ts + [t]) == ts && Last(ts + [t]) == t;
  }

  lemma SampleToken()
    ensures WellFormed(Copy(265, 1, 1, 0)) && Encodable(FixedCodes(), Copy(265, 1, 1, 0))
    ensures EncodeToken(FixedCodes(), Copy(265, 1, 1, 0)) == [0, 0, 0, 1, 0, 0, 1] + ([1] + ([0, 0, 0, 0, 1] + []))
  {
    hide Lsb, Codeword, Fits, FixedLit, FixedDist, LengthBase, LengthBits, DistanceBase, DistanceBits;
    SampleCopyToken();
    SampleCodes();
    FixedFits(265);
    FixedFits(1);
    LsbStep(1, 1);
    LsbNone(0);
  }

  lemma SampleEncoding()
    ensures AllEncodable(FixedCodes(), SAMPLE_TOKENS) && Fits(FixedLit(), 256)
    ensures EncodeBody(FixedCodes(), SAMPLE_TOKENS) ==
            [1, 0, 0, 1, 0, 0, 0, 1] + [1, 0, 0, 1, 0, 0, 1, 0] +
            ([0, 0, 0, 1, 0, 0, 1] + ([1] + ([0, 0, 0, 0, 1] + []))) + [0, 0, 0, 0, 0, 0, 0]
  {
    hide Codeword, Fits, FixedLit, FixedDist, EncodeTokens, AllEncodable, CopyLength, CopyDistance;
    var c := FixedCodes();
    SampleCodes();
    FixedFits(97);
    FixedFits(98);
    FixedFits(256);
    SampleToken();
    EncodeNone(c);
    EncodeSnoc(c, [], Literal(97));
    assert [] + [Literal(97)] == [Literal(97)];
    EncodeSnoc(c, [Literal(97)], Literal(98));
    assert [Literal(97)] + [Literal(98)] == [Literal(97), Literal(98)];
    EncodeSnoc(c, [Literal(97), Literal(98)], Copy(265, 1, 1, 0));
    assert [Literal(97), Literal(98)] + [Copy(265, 1, 1, 0)] == SAMPLE_TOKENS;
  }

  lemma EncodeNone(c: Codes)
    ensures AllEncodable(c, []) && EncodeTokens(c, []) == []
  {
  }

  lemma SampleBody(s: Source, pos: nat)
    requires At(s, pos, [1, 0, 0, 1, 0, 0, 0, 1]) && At(s, pos + 8, [1, 0, 0, 1, 0, 0, 1, 0])
    requires At(s, pos + 16, [0, 0, 0, 1, 0, 0, 1]) && At(s, pos + 23, [1])
    requires At(s, pos + 24, [0, 0, 0, 0, 1]) && At(s, pos + 29, [0, 0, 0, 0, 0, 0, 0])
    ensures At(s, pos, [1, 0, 0, 1, 0, 0, 0, 1] + [1, 0, 0, 1, 0, 0, 1, 0] +
                       ([0, 0, 0, 1, 0, 0, 1] + ([1] + ([0, 0, 0, 0, 1] + []))) + [0, 0, 0, 0, 0, 0, 0])
  {
    hide At;
    var a, b, l, x: seq<bit> := [1, 0, 0, 1, 0, 0, 0, 1], [1, 0, 0, 1, 0, 0, 1, 0], [0, 0, 0, 1, 0, 0, 1], [1];
    var d, e: seq<bit> := [0, 0, 0, 0, 1], [0, 0, 0, 0, 0, 0, 0];
    NoBitsAt(s, pos + 29);
    AtConcat(s, pos + 24, d, []);
    AtConcat(s, pos + 23, x, d + []);
    AtConcat(s, pos + 16, l, x + (d + []));
    AtConcat(s, pos, a, b);
    AtConcat(s, pos, a + b, l + (x + (d + [])));
    AtConcat(s, pos, a + b + (l + (x + (d + []))), e);
  }
}
