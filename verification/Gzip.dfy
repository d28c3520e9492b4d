// The blocks and the file format of source/tools/gzip/gzip.c.
module Gzip {
  import opened Words
  import opened BitStream
  import opened HuffmanCode
  import opened DeflateFormat
  import opened DynamicHeader
  import opened BlockFormat
  import opened GzipIo
  import opened GzipTables
  import opened GzipBlock

  /** The next byte boundary. */
  function Aligned(pos: nat): (p: nat)
    ensures p % 8 == 0 && pos <= p < pos + 8
  {
    (pos + 7) / 8 * 8
  }

  /** A length and its complement stand at p, and that many bytes have been copied. */
  ghost predicate StoredRead(s: Source, p: nat, out: seq<byte>, pos': nat, out': seq<byte>) {
    var len := Field(s, p, 16);
    && len + Field(s, p + 16, 16) == 65535 && pos' == p + 32 + 8 * len
    && |out'| == |out| + len && out <= out'
    && forall i :: 0 <= i < len ==> out'[|out| + i] == Field(s, p + 32 + 8 * i, 8)
  }

  /** deflate_uncompressed */
  method DeflateUncompressed(io: Io) returns (r: Status)
    requires io.Valid()
    modifies io, io.out
    ensures io.Valid() && (io.out == old(io.out) || fresh(io.out))
    ensures var p := Aligned(old(io.inPtr));
            if Field(io.source, p, 16) + Field(io.source, p + 16, 16) == 65535
            then r.Ok? && StoredRead(io.source, p, old(io.Out()), io.inPtr, io.Out())
            else r.Bad? && io.Out() == old(io.Out())
    ensures io.inPtr >= old(io.inPtr)
  {
    hide Field, Aligned;
    while io.inPtr % 8 != 0
      modifies io`inPtr
      invariant old(io.inPtr) <= io.inPtr <= Aligned(old(io.inPtr))
      decreases Aligned(old(io.inPtr)) - io.inPtr
    {
      io.inPtr := io.inPtr + 1;
    }
    ghost var p := io.inPtr;
    var len := io.ReadInput(16);
    var nlen := io.ReadInput(16);
    if len + nlen != 65535 {
      return Bad;
    }
    ghost var n := io.outLength;
    for i := 0 to len
      invariant io.Valid() && (io.out == old(io.out) || fresh(io.out))
      invariant io.inPtr == p + 32 + 8 * i && io.outLength == n + i
      invariant old(io.Out()) <= io.Out()
      invariant forall k :: 0 <= k < i ==> io.Out()[n + k] == Field(io.source, p + 32 + 8 * k, 8)
    {
      ByteBound(io.source, io.inPtr);
      var c := io.ReadInput(8);
      io.WriteOutput(c);
    }
    r := Ok;
  }

  lemma ByteBound(s: Source, pos: nat)
    ensures Field(s, pos, 8) < 256
  {
    FieldBound(s, pos, 8);
    assert Pow2(4) == 16 && Pow2(8) == 256;
  }

  /** A compressed block with the fixed codes. */
  method InflateFixed(io: Io, hlitTree: HuffmanTree, hdistTree: HuffmanTree) returns (r: Status)
    requires io.Valid() && TreesApart(hlitTree, hdistTree)
    modifies io, io.out, hlitTree, hlitTree.sizeTable, hlitTree.codeTable, hdistTree, hdistTree.sizeTable,
             hdistTree.codeTable
    ensures io.Valid() && (io.out == old(io.out) || fresh(io.out))
    ensures r.Ok? ==> io.inPtr >= old(io.inPtr)
    ensures r.Ok? <==> exists ts :: BodyAt(io.source, old(io.inPtr), FixedCodes(), old(io.Out()), ts)
    ensures forall ts :: BodyAt(io.source, old(io.inPtr), FixedCodes(), old(io.Out()), ts) ==>
              io.Out() == Expand(old(io.Out()), ts) && io.inPtr == old(io.inPtr) + |EncodeBody(FixedCodes(), ts)|
  {
    hide FixedLit, FixedDist, BodyAt, EncodeBody, Expand;
    CreateFixedTables(hlitTree, hdistTree);
    assert io.Out() == old(io.Out());
    r := DeflateHuffman(io, hlitTree, hdistTree, FixedCodes());
  }

  /** The tables t and a body in their codes stand at pos, and decoding has led to pos' and out'. */
  ghost predicate DynamicRead(s: Source, pos: nat, t: Tables, ts: seq<Token>, out: seq<byte>, pos': nat,
                              out': seq<byte>) {
    && t.ReadAt(s, pos) && t.Whole() && BodyAt(s, t.dist.pos, t.Codes(), out, ts)
    && pos' == t.dist.pos + |EncodeBody(t.Codes(), ts)| && out' == Expand(out, ts)
  }

  /** A compressed block with its own codes.  Its success means that tables and a body in their codes
      have been read; they are those of the block if its header is safe.  The C code ignores the
      result of reading the tables; after a failure it decodes with tables it has not set. */
  method InflateDynamic(io: Io, hlitTree: HuffmanTree, hdistTree: HuffmanTree) returns (r: Status)
    requires io.Valid() && TreesApart(hlitTree, hdistTree)
    modifies io, io.out
    modifies hlitTree, hlitTree.sizeTable, hlitTree.codeTable, hdistTree, hdistTree.sizeTable, hdistTree.codeTable
    ensures io.Valid() && (io.out == old(io.out) || fresh(io.out))
    ensures r.Ok? ==> io.inPtr >= old(io.inPtr)
    ensures r.Ok? ==> exists t, ts :: DynamicRead(io.source, old(io.inPtr), t, ts, old(io.Out()), io.inPtr, io.Out())
    ensures forall h, ts :: DynamicAt(io.source, old(io.inPtr), h, ts, old(io.Out())) ==>
              && r.Ok?
              && io.Out() == Expand(old(io.Out()), ts)
              && io.inPtr == old(io.inPtr) + |EncodeHeader(h)| + |EncodeBody(DynamicCodes(h), ts)|
  {
    hide HeaderOk, Safe, EncodeBody, Expand, EncodeHeader, LitLengths, DistLengths, At, ValidTokens, AllEncodable, Fits,
         Tables.ReadAt, Tables.Whole, Tables.Codes;
    ghost var t;
    ghost var s, start, out := io.source, io.inPtr, io.Out();
    r, t := CreateDynamicTables(io, hlitTree, hdistTree);
    assert io.Out() == out;
    if r.Ok? {
      ghost var mid, c := io.inPtr, t.Codes();
      r := DeflateHuffman(io, hlitTree, hdistTree, c);
      if r.Ok? {
        ghost var ts :| BodyAt(s, mid, c, out, ts);
        assert DynamicRead(s, start, t, ts, out, io.inPtr, io.Out());
      }
      forall h, ts | DynamicAt(s, start, h, ts, out)
        ensures r.Ok? && io.Out() == Expand(out, ts)
        ensures io.inPtr == start + |EncodeHeader(h)| + |EncodeBody(DynamicCodes(h), ts)|
      {
        assert BodyAt(s, mid, c, out, ts);
      }
    } else {
      r := Fault;
    }
  }

  ghost predicate TreesApart(hlitTree: HuffmanTree, hdistTree: HuffmanTree) {
    && hlitTree.Sized() && hdistTree.Sized() && hlitTree != hdistTree
    && {hlitTree.sizeTable, hlitTree.codeTable} !! {hdistTree.sizeTable, hdistTree.codeTable}
  }

  /** A block stands at pos, whether or not it is marked as the final one, and decoding it has led to
      pos' and out': what a success says of the input, also if no encoder writes such a block. */
  ghost predicate BlockRead(s: Source, pos: nat, out: seq<byte>, pos': nat, out': seq<byte>) {
    var btype, p := Field(s, pos + 1, 2), pos + 3;
    if btype == 0 then StoredRead(s, Aligned(p), out, pos', out')
    else if btype == 1 then exists ts :: FixedRead(s, p, ts, out, pos', out')
    else btype == 2 && exists t, ts :: DynamicRead(s, p, t, ts, out, pos', out')
  }

  ghost predicate FixedRead(s: Source, pos: nat, ts: seq<Token>, out: seq<byte>, pos': nat, out': seq<byte>) {
    && BodyAt(s, pos, FixedCodes(), out, ts)
    && pos' == pos + |EncodeBody(FixedCodes(), ts)| && out' == Expand(out, ts)
  }

  lemma FixedIsBlock(s: Source, pos: nat, ts: seq<Token>, out: seq<byte>, pos': nat, out': seq<byte>)
    requires Field(s, pos + 1, 2) == 1 && FixedRead(s, pos + 3, ts, out, pos', out')
    ensures BlockRead(s, pos, out, pos', out')
  {
  }

  lemma DynamicIsBlock(s: Source, pos: nat, t: Tables, ts: seq<Token>, out: seq<byte>, pos': nat, out': seq<byte>)
    requires Field(s, pos + 1, 2) == 2 && DynamicRead(s, pos + 3, t, ts, out, pos', out')
    ensures BlockRead(s, pos, out, pos', out')
  {
  }

  /** One round of the loop of deflate: a whole block. */
  method InflateBlock(io: Io, hlitTree: HuffmanTree, hdistTree: HuffmanTree) returns (r: Status, bfinal: nat)
    requires io.Valid() && TreesApart(hlitTree, hdistTree)
    modifies io, io.out
    modifies hlitTree, hlitTree.sizeTable, hlitTree.codeTable, hdistTree, hdistTree.sizeTable, hdistTree.codeTable
    ensures io.Valid() && (io.out == old(io.out) || fresh(io.out))
    ensures bfinal == Field(io.source, old(io.inPtr), 1)
    ensures r.Ok? ==> io.inPtr > old(io.inPtr)
    ensures r.Ok? ==> BlockRead(io.source, old(io.inPtr), old(io.Out()), io.inPtr, io.Out())
    ensures forall final, b :: BlockAt(io.source, old(io.inPtr), final, b, old(io.Out())) && SafeBlock(b) ==>
              && r.Ok? && bfinal == final
              && io.inPtr == BlockEnd(b, old(io.inPtr), old(io.Out()))
              && io.Out() == ExpandBlock(b, old(io.inPtr), old(io.Out()))
  {
    hide At, EncodeBlock, DynamicAt, DynamicCodes, BlockOk, EncodeContent, EncodeBody, EncodeStored, EncodeHeader,
         BlockEnd, Expand, ExpandBlock, Field, BodyAt, HeaderAt, HeaderOk, BodyOk, Safe, Aligned, DynamicRead,
         StoredRead;
    ghost var s, pos, out := io.source, io.inPtr, io.Out();
    forall final, b | BlockAt(s, pos, final, b, out)
      ensures Field(s, pos, 1) == final && Field(s, pos + 1, 2) == BlockType(b)
    {
      BlockParts(s, pos, final, b, out);
    }
    bfinal := io.ReadInput(1);
    var btype := io.ReadInput(2);
    ghost var p := io.inPtr;
    assert io.Out() == out;
    if btype == 0 {
      r := DeflateUncompressed(io);
      ghost var pos', out' := io.inPtr, io.Out();
      forall final, b | BlockAt(s, pos, final, b, out)
        ensures r.Ok? && io.inPtr == BlockEnd(b, pos, out) && io.Out() == ExpandBlock(b, pos, out)
      {
        StoredResult(s, pos, final, b, out, pos', out');
      }
    } else if btype == 1 {
      r := InflateFixed(io, hlitTree, hdistTree);
      if r.Ok? {
        ghost var ts :| BodyAt(s, p, FixedCodes(), out, ts);
        FixedIsBlock(s, pos, ts, out, io.inPtr, io.Out());
      }
      forall final, b | BlockAt(s, pos, final, b, out)
        ensures r.Ok? && io.inPtr == BlockEnd(b, pos, out) && io.Out() == ExpandBlock(b, pos, out)
      {
        FixedResult(s, pos, final, b, out);
      }
    } else if btype == 2 {
      r := InflateDynamic(io, hlitTree, hdistTree);
      if r.Ok? {
        ghost var t, ts :| DynamicRead(s, p, t, ts, out, io.inPtr, io.Out());
        DynamicIsBlock(s, pos, t, ts, out, io.inPtr, io.Out());
      }
      forall final, b | BlockAt(s, pos, final, b, out) && SafeBlock(b)
        ensures r.Ok? && io.inPtr == BlockEnd(b, pos, out) && io.Out() == ExpandBlock(b, pos, out)
      {
        DynamicResult(s, pos, final, b, out);
      }
    } else {
      r := Bad;
    }
  }

  lemma StoredResult(s: Source, pos: nat, final: bit, b: Block, out: seq<byte>, pos': nat, out': seq<byte>)
    requires BlockAt(s, pos, final, b, out) && b.Stored?
    ensures Field(s, Aligned(pos + 3), 16) + Field(s, Aligned(pos + 3) + 16, 16) == 65535
    ensures StoredRead(s, Aligned(pos + 3), out, pos', out') ==>
              pos' == BlockEnd(b, pos, out) && out' == ExpandBlock(b, pos, out)
  {
    hide At, EncodeStored, Field;
    BlockParts(s, pos, final, b, out);
    AtConcat(s, pos + 3, b.pad, EncodeStored(b.data));
    assert Aligned(pos + 3) == pos + 3 + |b.pad|;
    StoredParts(s, pos + 3 + |b.pad|, b.data);
    StoredLength(b.data);
  }

  lemma StoredLength(data: seq<byte>)
    requires |data| < 65536
    ensures |EncodeStored(data)| == 32 + 8 * |data|
  {
  }

  lemma FixedResult(s: Source, pos: nat, final: bit, b: Block, out: seq<byte>)
    requires BlockAt(s, pos, final, b, out) && b.Fixed?
    ensures BodyAt(s, pos + 3, FixedCodes(), out, b.tokens)
    ensures BlockEnd(b, pos, out) == pos + 3 + |EncodeBody(FixedCodes(), b.tokens)|
    ensures ExpandBlock(b, pos, out) == Expand(out, b.tokens)
  {
    hide At, EncodeBody, ValidTokens, AllEncodable, Fits, Field, FixedLit, FixedDist;
    BlockParts(s, pos, final, b, out);
  }

  lemma DynamicResult(s: Source, pos: nat, final: bit, b: Block, out: seq<byte>)
    requires BlockAt(s, pos, final, b, out) && b.Dynamic?
    ensures Safe(b.header) ==> DynamicAt(s, pos + 3, b.header, b.tokens, out)
    ensures BlockEnd(b, pos, out) == pos + 3 + |EncodeHeader(b.header)| + |EncodeBody(DynamicCodes(b.header), b.tokens)|
    ensures ExpandBlock(b, pos, out) == Expand(out, b.tokens)
  {
    hide At, EncodeBody, EncodeHeader, ValidTokens, AllEncodable, Fits, Field, HeaderOk, LitLengths, DistLengths;
    BlockParts(s, pos, final, b, out);
    DynamicParts(s, pos + 3, b.header, b.tokens, out);
  }

  /** Every header among the blocks can be read by the C code. */
  ghost predicate Readable(s: Source, pos: nat, bs: seq<Block>, out: seq<byte>) {
    BlocksAt(s, pos, bs, out) && forall i :: 0 <= i < |bs| ==> SafeBlock(bs[i])
  }

  /** What is left of the blocks bs, when the first k of them have been decoded. */
  ghost predicate Remaining(s: Source, start: nat, bs: seq<Block>, out0: seq<byte>, k: nat, pos: nat, out: seq<byte>) {
    Readable(s, start, bs, out0) ==>
      && k < |bs|
      && Readable(s, pos, bs[k..], out)
      && start + |EncodeBlocks(bs, start, out0)| == pos + |EncodeBlocks(bs[k..], pos, out)|
      && ExpandBlocks(bs, start, out0) == ExpandBlocks(bs[k..], pos, out)
  }

  lemma RemainingStart(s: Source, start: nat, bs: seq<Block>, out0: seq<byte>)
    ensures Remaining(s, start, bs, out0, 0, start, out0)
  {
    hide BlocksAt, BlocksOk, EncodeBlocks, ExpandBlocks;
    assert bs[0..] == bs;
    if Readable(s, start, bs, out0) {
      BlocksNonEmpty(s, start, bs, out0);
    }
  }

  lemma BlocksNonEmpty(s: Source, start: nat, bs: seq<Block>, out0: seq<byte>)
    requires BlocksAt(s, start, bs, out0)
    ensures |bs| > 0 && BlocksOk(bs, start, out0)
  {
  }

  /** The next block of those that are left: it stands at the input position, and it is marked
      as final exactly when no other block follows. */
  lemma RemainingStep(s: Source, start: nat, bs: seq<Block>, out0: seq<byte>, k: nat, pos: nat, out: seq<byte>)
    requires Readable(s, start, bs, out0) && Remaining(s, start, bs, out0, k, pos, out)
    ensures k < |bs| && SafeBlock(bs[k])
    ensures BlockAt(s, pos, FinalBit(bs[k..]), bs[k], out)
    ensures var pos', out' := BlockEnd(bs[k], pos, out), ExpandBlock(bs[k], pos, out);
            if FinalBit(bs[k..]) == 1 then
              pos' == start + |EncodeBlocks(bs, start, out0)| && out' == ExpandBlocks(bs, start, out0)
            else
              Remaining(s, start, bs, out0, k + 1, pos', out')
  {
    hide BlocksAt, BlocksOk, EncodeBlocks, ExpandBlocks, BlockAt, BlockEnd, ExpandBlock, SafeBlock, BlockOk;
    var rest := bs[k..];
    assert rest[0] == bs[k];
    FirstBlock(s, pos, rest, out);
    SafeAt(bs, k);
    if |rest| > 1 {
      assert rest[1..] == bs[k + 1..];
      forall i | 0 <= i < |rest[1..]| ensures SafeBlock(rest[1..][i]) {
        SafeAt(bs, k + 1 + i);
      }
    }
  }

  lemma SafeAt(bs: seq<Block>, k: nat)
    requires k < |bs| && forall i :: 0 <= i < |bs| ==> SafeBlock(bs[i])
    ensures SafeBlock(bs[k])
  {
  }

  /** The position and the output between two blocks. */
  datatype Stage = Stage(pos: nat, out: seq<byte>)

  /** Blocks follow each other from stage to stage; n of them are not marked as final. */
  ghost predicate StagesRead(s: Source, stages: seq<Stage>, n: nat) {
    && |stages| > 0
    && (forall k :: 0 <= k < |stages| - 1 ==>
          BlockRead(s, stages[k].pos, stages[k].out, stages[k + 1].pos, stages[k + 1].out))
    && forall k :: 0 <= k < |stages| - 1 ==> (Field(s, stages[k].pos, 1) == 1 <==> k >= n)
  }

  lemma StagesStart(s: Source, stages: seq<Stage>)
    requires |stages| == 1
    ensures StagesRead(s, stages, 0)
  {
  }

  lemma StagesStep(s: Source, stages: seq<Stage>, n: nat, next: Stage)
    requires StagesRead(s, stages, n) && |stages| == n + 1
    requires BlockRead(s, stages[n].pos, stages[n].out, next.pos, next.out)
    ensures StagesRead(s, stages + [next], if Field(s, stages[n].pos, 1) == 1 then n else n + 1)
  {
    hide BlockRead, Field;
    var more := stages + [next];
    forall k | 0 <= k < |more| - 1
      ensures BlockRead(s, more[k].pos, more[k].out, more[k + 1].pos, more[k + 1].out)
      ensures Field(s, more[k].pos, 1) == 1 <==> k >= if Field(s, stages[n].pos, 1) == 1 then n else n + 1
    {
      assert k < n ==> more[k] == stages[k] && more[k + 1] == stages[k + 1];
    }
  }

  /** deflate: decodes blocks up to and including the final one. */
  method Deflate(io: Io) returns (r: Status, ghost stages: seq<Stage>)
    requires io.Valid()
    modifies io, io.out
    ensures io.Valid() && (io.out == old(io.out) || fresh(io.out))
    ensures r.Ok? ==>
              && |stages| >= 2 && StagesRead(io.source, stages, |stages| - 2)
              && stages[0] == Stage(old(io.inPtr), old(io.Out()))
              && stages[|stages| - 1] == Stage(io.inPtr, io.Out())
    ensures forall bs :: Readable(io.source, old(io.inPtr), bs, old(io.Out())) ==>
              && r.Ok?
              && io.inPtr == old(io.inPtr) + |EncodeBlocks(bs, old(io.inPtr), old(io.Out()))|
              && io.Out() == ExpandBlocks(bs, old(io.inPtr), old(io.Out()))
  {
    hide Readable, Remaining, BlocksAt, BlocksOk, EncodeBlocks, ExpandBlocks, BlockAt, BlockEnd, ExpandBlock,
         SafeBlock, BlockOk, Field, BlockRead, StagesRead;
    ghost var s, start, out0 := io.source, io.inPtr, io.Out();
    stages := [Stage(start, out0)];
    StagesStart(s, stages);
    var hlitTree := new HuffmanTree();
    var hdistTree := new HuffmanTree();
    ghost var k := 0;
    forall bs ensures Remaining(s, start, bs, out0, 0, start, out0) {
      RemainingStart(s, start, bs, out0);
    }
    while io.inPtr <= BitLength(io.source)
      invariant io.Valid() && (io.out == old(io.out) || fresh(io.out))
      invariant fresh(hlitTree) && fresh(hlitTree.sizeTable) && fresh(hlitTree.codeTable)
      invariant fresh(hdistTree) && fresh(hdistTree.sizeTable) && fresh(hdistTree.codeTable)
      invariant TreesApart(hlitTree, hdistTree)
      invariant forall bs :: Remaining(s, start, bs, out0, k, io.inPtr, io.Out())
      invariant |stages| == k + 1 && StagesRead(s, stages, k) && stages[0] == Stage(start, out0)
      invariant stages[k] == Stage(io.inPtr, io.Out())
      decreases BitLength(io.source) - io.inPtr
    {
      ghost var pos, out := io.inPtr, io.Out();
      forall bs | Readable(s, start, bs, out0)
        ensures k < |bs| && SafeBlock(bs[k]) && BlockAt(s, pos, FinalBit(bs[k..]), bs[k], out)
      {
        RemainingStep(s, start, bs, out0, k, pos, out);
      }
      var bfinal;
      r, bfinal := InflateBlock(io, hlitTree, hdistTree);
      if !r.Ok? {
        return;
      }
      StagesStep(s, stages, k, Stage(io.inPtr, io.Out()));
      stages := stages + [Stage(io.inPtr, io.Out())];
      forall bs | Readable(s, start, bs, out0)
        ensures if bfinal == 1 then
                  && BlocksOk(bs, start, out0)
                  && io.inPtr == start + |EncodeBlocks(bs, start, out0)|
                  && io.Out() == ExpandBlocks(bs, start, out0)
                else
                  Remaining(s, start, bs, out0, k + 1, io.inPtr, io.Out())
      {
        ReadableOk(s, start, bs, out0);
        RemainingStep(s, start, bs, out0, k, pos, out);
      }
      if bfinal == 1 {
        return;
      }
      k := k + 1;
      forall bs ensures Remaining(s, start, bs, out0, k, io.inPtr, io.Out()) {
        if !Readable(s, start, bs, out0) {
          NotReadable(s, start, bs, out0, k, io.inPtr, io.Out());
        }
      }
    }
    forall bs ensures !Readable(s, start, bs, out0) {
      if Readable(s, start, bs, out0) {
        WithinInput(s, start, bs, out0, k, io.inPtr, io.Out());
      }
    }
    r := Fault;
  }

  lemma ReadableOk(s: Source, start: nat, bs: seq<Block>, out0: seq<byte>)
    requires Readable(s, start, bs, out0)
    ensures BlocksOk(bs, start, out0)
  {
  }

  lemma NotReadable(s: Source, start: nat, bs: seq<Block>, out0: seq<byte>, k: nat, pos: nat, out: seq<byte>)
    requires !Readable(s, start, bs, out0)
    ensures Remaining(s, start, bs, out0, k, pos, out)
  {
  }

  lemma WithinInput(s: Source, start: nat, bs: seq<Block>, out0: seq<byte>, k: nat, pos: nat, out: seq<byte>)
    requires Readable(s, start, bs, out0) && Remaining(s, start, bs, out0, k, pos, out)
    ensures pos <= BitLength(s)
  {
    hide BlocksOk, EncodeBlocks, ExpandBlocks, At;
  }

  // ---------------------------------------------------------------------------
  // The file format

  /** The C code refuses a file only if all three of these bytes are wrong. */
  predicate SignatureSeen(id1: byte, id2: byte, cm: byte) {
    id1 == 0x1F || id2 == 0x8B || cm == 8
  }

  /** The input starts with the header m. */
  ghost predicate HeaderIn(s: Source, m: Member) {
    MemberOk(m) && SignatureSeen(m.id1, m.id2, m.cm) && MemberBytes(m) <= s.data
  }

  function AfterExtra(m: Member): nat
    requires MemberOk(m)
  {
    10 + |ExtraField(m)|
  }

  function AfterName(m: Member): nat
    requires MemberOk(m)
  {
    AfterExtra(m) + |TextField(Bit(m.flags, FNAME), m.name)|
  }

  function AfterComment(m: Member): nat
    requires MemberOk(m)
  {
    AfterName(m) + |TextField(Bit(m.flags, FCOMMENT), m.comment)|
  }

  /** Where the optional fields of a header lie in the input. */
  lemma HeaderLayout(s: Source, m: Member)
    requires HeaderIn(s, m)
    ensures MemberOk(m) && SignatureSeen(m.id1, m.id2, m.cm)
    ensures AfterExtra(m) == if Bit(m.flags, FEXTRA) then 12 + |m.extra| else 10
    ensures AfterName(m) == AfterExtra(m) + if Bit(m.flags, FNAME) then |m.name| + 1 else 0
    ensures AfterComment(m) == AfterName(m) + if Bit(m.flags, FCOMMENT) then |m.comment| + 1 else 0
    ensures |s.data| >= |MemberBytes(m)| == AfterComment(m) + if Bit(m.flags, FHCRC) then 2 else 0
    ensures ByteAt(s, 0) == m.id1 && ByteAt(s, 1) == m.id2 && ByteAt(s, 2) == m.cm && ByteAt(s, 3) == m.flags
    ensures Bit(m.flags, FEXTRA) ==> ByteAt(s, 10) + ByteAt(s, 11) * 256 == |m.extra|
    ensures Bit(m.flags, FNAME) ==> TextAt(s, AfterExtra(m), |m.name|)
    ensures Bit(m.flags, FCOMMENT) ==> TextAt(s, AfterName(m), |m.comment|)
  {
    hide ByteAt, BytesIn, TextAt, ExtraField, TextField, Bit, MemberBytes;
    var fixed := [m.id1, m.id2, m.cm, m.flags] + m.mtimeXflOs;
    var extra, name, comment :=
      ExtraField(m), TextField(Bit(m.flags, FNAME), m.name), TextField(Bit(m.flags, FCOMMENT), m.comment);
    FieldSizes(m);
    StartsWith(s, MemberBytes(m));
    BytesConcat(s, 0, fixed + extra + name + comment, m.hcrc);
    BytesConcat(s, 0, fixed + extra + name, comment);
    BytesConcat(s, 0, fixed + extra, name);
    BytesConcat(s, 0, fixed, extra);
    FixedBytes(s, fixed);
    if Bit(m.flags, FEXTRA) {
      ExtraBytes(s, m);
    }
    if Bit(m.flags, FNAME) {
      TextBytes(s, AfterExtra(m), m.name);
    }
    if Bit(m.flags, FCOMMENT) {
      TextBytes(s, AfterName(m), m.comment);
    }
  }

  /** The given bytes stand in the input from byte i on. */
  ghost predicate BytesIn(s: Source, i: nat, bytes: seq<byte>) {
    forall k :: 0 <= k < |bytes| ==> ByteAt(s, i + k) == bytes[k]
  }

  lemma StartsWith(s: Source, bytes: seq<byte>)
    requires bytes <= s.data
    ensures BytesIn(s, 0, bytes)
  {
  }

  lemma BytesConcat(s: Source, i: nat, a: seq<byte>, b: seq<byte>)
    requires BytesIn(s, i, a + b)
    ensures BytesIn(s, i, a) && BytesIn(s, i + |a|, b)
  {
    forall k | 0 <= k < |a| ensures ByteAt(s, i + k) == a[k] {
      assert (a + b)[k] == a[k];
    }
    forall k | 0 <= k < |b| ensures ByteAt(s, i + |a| + k) == b[k] {
      assert (a + b)[|a| + k] == b[k];
    }
  }

  lemma FieldSizes(m: Member)
    requires MemberOk(m)
    ensures |ExtraField(m)| == if Bit(m.flags, FEXTRA) then 2 + |m.extra| else 0
    ensures |TextField(Bit(m.flags, FNAME), m.name)| == if Bit(m.flags, FNAME) then |m.name| + 1 else 0
    ensures |TextField(Bit(m.flags, FCOMMENT), m.comment)| == if Bit(m.flags, FCOMMENT) then |m.comment| + 1 else 0
    ensures MemberBytes(m) == [m.id1, m.id2, m.cm, m.flags] + m.mtimeXflOs + ExtraField(m) +
              TextField(Bit(m.flags, FNAME), m.name) + TextField(Bit(m.flags, FCOMMENT), m.comment) + m.hcrc
  {
    hide Bit;
  }

  lemma FixedBytes(s: Source, bytes: seq<byte>)
    requires BytesIn(s, 0, bytes) && |bytes| >= 4
    ensures ByteAt(s, 0) == bytes[0] && ByteAt(s, 1) == bytes[1] && ByteAt(s, 2) == bytes[2] && ByteAt(s, 3) == bytes[3]
  {
    assert ByteAt(s, 0 + 0) == bytes[0] && ByteAt(s, 0 + 1) == bytes[1] && ByteAt(s, 0 + 2) == bytes[2] &&
           ByteAt(s, 0 + 3) == bytes[3];
  }

  lemma ExtraBytes(s: Source, m: Member)
    requires MemberOk(m) && Bit(m.flags, FEXTRA) && BytesIn(s, 10, ExtraField(m))
    ensures ByteAt(s, 10) + ByteAt(s, 11) * 256 == |m.extra|
  {
    hide Bit;
    assert ByteAt(s, 10 + 0) == ExtraField(m)[0] && ByteAt(s, 10 + 1) == ExtraField(m)[1];
  }

  lemma TextBytes(s: Source, i: nat, text: seq<byte>)
    requires BytesIn(s, i, TextField(true, text)) && NoZero(text)
    ensures TextAt(s, i, |text|)
  {
    var bytes := text + [0];
    forall k | i <= k < i + |text| ensures ByteAt(s, k) != 0 {
      assert ByteAt(s, i + (k - i)) == bytes[k - i];
    }
    assert ByteAt(s, i + |text|) == bytes[|text|];
  }

  /** A text of n bytes that are not zero, and its terminating zero, at byte i. */
  ghost predicate TextAt(s: Source, i: nat, n: nat) {
    (forall k :: i <= k < i + n ==> ByteAt(s, k) != 0) && ByteAt(s, i + n) == 0
  }

  /** Skips a text and its terminating zero. */
  method SkipText(io: Io, ghost i: nat) returns (ok: bool)
    requires io.inPtr == 8 * i
    modifies io`inPtr
    ensures forall n: nat :: TextAt(io.source, i, n) && i + n < |io.source.data| ==> ok && io.inPtr == 8 * (i + n + 1)
    ensures io.inPtr % 8 == 0
  {
    hide Field, ByteAt, TextAt;
    ghost var s, j := io.source, i;
    while io.inPtr < BitLength(io.source)
      invariant i <= j && io.inPtr == 8 * j
      invariant forall k :: i <= k < j ==> ByteAt(s, k) != 0
      decreases BitLength(io.source) - io.inPtr
    {
      ByteField(s, j);
      var b := io.ReadInput(8);
      if b == 0 {
        forall n: nat | TextAt(s, i, n) ensures n == j - i {
          TextEnds(s, i, n, j);
        }
        return true;
      }
      j := j + 1;
    }
    forall n: nat | TextAt(s, i, n) ensures i + n >= |s.data| {
      TextEndsLate(s, i, n, j);
    }
    ok := false;
  }

  lemma TextEnds(s: Source, i: nat, n: nat, j: nat)
    requires TextAt(s, i, n) && i <= j && ByteAt(s, j) == 0
    requires forall k :: i <= k < j ==> ByteAt(s, k) != 0
    ensures n == j - i
  {
    hide ByteAt;
  }

  lemma TextEndsLate(s: Source, i: nat, n: nat, j: nat)
    requires TextAt(s, i, n) && forall k :: i <= k < j ==> ByteAt(s, k) != 0
    ensures i + n >= j
  {
    hide ByteAt;
  }

  /** An optional text, which is there if its flag is set. */
  method SkipOptionalText(io: Io, present: bool, ghost i: nat) returns (ok: bool)
    requires io.inPtr == 8 * i
    modifies io`inPtr
    ensures !present ==> ok && io.inPtr == 8 * i
    ensures present ==> forall n: nat :: TextAt(io.source, i, n) && i + n < |io.source.data| ==>
              ok && io.inPtr == 8 * (i + n + 1)
    ensures io.inPtr % 8 == 0
  {
    hide TextAt;
    ok := true;
    if present {
      ok := SkipText(io, i);
    }
  }

  /** The first ten bytes and the extra field. */
  method ReadFixedFields(io: Io) returns (ok: bool, fl: nat)
    requires io.inPtr == 0
    modifies io`inPtr
    ensures ok <==> SignatureSeen(ByteAt(io.source, 0), ByteAt(io.source, 1), ByteAt(io.source, 2))
    ensures fl == ByteAt(io.source, 3)
    ensures ok && Bit(fl, FEXTRA) ==> io.inPtr == 96 + 8 * (ByteAt(io.source, 10) + ByteAt(io.source, 11) * 256)
    ensures ok && !Bit(fl, FEXTRA) ==> io.inPtr == 80
  {
    hide Field, ByteAt, Bit;
    ghost var s := io.source;
    ByteField(s, 0);
    ByteField(s, 1);
    ByteField(s, 2);
    ByteField(s, 3);
    var id1 := io.ReadInput(8);
    var id2 := io.ReadInput(8);
    var cm := io.ReadInput(8);
    fl := io.ReadInput(8);
    if id1 != 0x1F && id2 != 0x8B && cm != 8 {
      return false, fl;
    }
    var skipped := io.ReadInput(32);
    skipped := io.ReadInput(8);
    skipped := io.ReadInput(8);
    if Bit(fl, FEXTRA) {
      TwoBytes(s, 10);
      var extraLength := io.ReadInput(16);
      for i := 0 to extraLength
        invariant io.inPtr == 96 + 8 * i
      {
        skipped := io.ReadInput(8);
      }
    }
    ok := true;
  }

  /** The checks and fields before the compressed data. */
  method ReadMemberHeader(io: Io) returns (r: Status)
    requires io.inPtr == 0
    modifies io`inPtr
    ensures forall m :: HeaderIn(io.source, m) ==> r.Ok? && io.inPtr == 8 * |MemberBytes(m)|
    ensures !SignatureSeen(ByteAt(io.source, 0), ByteAt(io.source, 1), ByteAt(io.source, 2)) ==> r.Bad?
  {
    hide Field, ByteAt, MemberBytes, HeaderIn, MemberOk, ExtraField, TextField, TextAt, Bit, AfterExtra, AfterName,
         AfterComment, SignatureSeen;
    ghost var s := io.source;
    var ok, fl := ReadFixedFields(io);
    ghost var p1 := io.inPtr;
    forall m | HeaderIn(s, m) ensures ok && MemberOk(m) && p1 == 8 * AfterExtra(m) {
      HeaderLayout(s, m);
    }
    if !ok {
      return Bad;
    }
    var ok1 := SkipOptionalText(io, Bit(fl, FNAME), p1 / 8);
    ghost var p2 := io.inPtr;
    forall m | HeaderIn(s, m) ensures ok1 && MemberOk(m) && p2 == 8 * AfterName(m) {
      HeaderLayout(s, m);
    }
    if !ok1 {
      return Fault;
    }
    var ok2 := SkipOptionalText(io, Bit(fl, FCOMMENT), p2 / 8);
    ghost var p3 := io.inPtr;
    forall m | HeaderIn(s, m) ensures ok2 && MemberOk(m) && p3 == 8 * AfterComment(m) {
      HeaderLayout(s, m);
    }
    if !ok2 {
      return Fault;
    }
    if Bit(fl, FHCRC) {
      io.inPtr := io.inPtr + 16;
    }
    ghost var p4 := io.inPtr;
    forall m | HeaderIn(s, m) ensures MemberOk(m) && p4 == 8 * |MemberBytes(m)| {
      HeaderLayout(s, m);
    }
    r := Ok;
  }

  lemma TwoBytes(s: Source, i: nat)
    ensures Field(s, 8 * i, 16) == ByteAt(s, i) + ByteAt(s, i + 1) * 256
  {
    hide Field, ByteAt;
    ByteField(s, i);
    ByteField(s, i + 1);
    FieldSplit(s, 8 * i, 8, 8);
    assert Pow2(8) == 256 by {
      assert Pow2(4) == 16;
    }
  }

  lemma HeaderMember(s: Source, m: Member)
    requires HeaderIn(s, m)
    ensures MemberOk(m)
  {
    hide MemberOk;
  }

  /** gzip_decode.  On every file that starts with a header in which one of the three signature
      bytes is right, followed by blocks whose headers the C code can read, the result is what
      the blocks stand for; a file in which all three bytes are wrong is refused. */
  method GzipDecode(io: Io) returns (r: Status)
    modifies io
    ensures forall m, bs :: HeaderIn(io.source, m) && Readable(io.source, 8 * |MemberBytes(m)|, bs, []) ==>
              r.Ok? && io.out[..] == ExpandBlocks(bs, 8 * |MemberBytes(m)|, [])
    ensures !SignatureSeen(ByteAt(io.source, 0), ByteAt(io.source, 1), ByteAt(io.source, 2)) ==> r.Bad?
    ensures r.Ok? ==> fresh(io.out)
  {
    hide HeaderIn, MemberOk, MemberBytes, Readable, ExpandBlocks, EncodeBlocks, BlocksOk, SignatureSeen;
    ghost var s := io.source;
    io.inPtr, io.outLength := 0, 0;
    r := ReadMemberHeader(io);
    if !r.Ok? {
      return;
    }
    ghost var pos := io.inPtr;
    forall m | HeaderIn(s, m) ensures MemberOk(m) && pos == 8 * |MemberBytes(m)| {
      HeaderMember(s, m);
    }
    io.outSize := 1024;
    io.out := new byte[io.outSize];
    ghost var before := io.Out();
    assert before == [] && io.source == s && io.inPtr == pos;
    label Start:
    ghost var stages;
    r, stages := Deflate(io);
    ghost var ok, out := r.Ok?, io.Out();
    forall bs | Readable(s, pos, bs, []) ensures BlocksOk(bs, pos, []) && ok && out == ExpandBlocks(bs, pos, []) {
      ReadableOk(s, pos, bs, []);
      assert old@Start(io.Out()) == before;
      assert Readable(io.source, old@Start(io.inPtr), bs, old@Start(io.Out()));
    }
    if !r.Ok? {
      return;
    }
    var trimmed := new byte[io.outLength];
    forall i | 0 <= i < io.outLength {
      trimmed[i] := io.out[i];
    }
    assert trimmed[..] == io.Out();
    io.out := trimmed;
  }
}
