// The state of the decoder of source/tools/gzip/gzip.c, changed in place: the Huffman
// trees, the bit reader and the growing output buffer.
module GzipIo {
  import opened Words
  import opened BitStream
  import opened HuffmanCode
  import opened DeflateFormat

  /** Ok and Bad are the results 1 and 0 of the C functions.  Fault stands for runs in which
      the C code uses a value it never set, indexes outside a table or a buffer, or consumes
      bits from beyond the input. */
  datatype Status = Ok | Bad | Fault

  /** huffman_t */
  class HuffmanTree {
    var maxbits: nat
    var length: nat
    const sizeTable: array<nat>
    const codeTable: array<nat>

    constructor ()
      ensures Sized()
      ensures fresh(sizeTable) && fresh(codeTable)
    {
      maxbits, length := 0, 0;
      sizeTable := new nat[HLIT_TSIZE];
      codeTable := new nat[HLIT_TSIZE];
    }

    ghost predicate Sized() {
      sizeTable.Length == HLIT_TSIZE && codeTable.Length == HLIT_TSIZE && sizeTable != codeTable
    }

    /** The tree holds the canonical code with the given lengths. */
    ghost predicate Encodes(lens: Lengths)
      reads this, sizeTable, codeTable
    {
      && Sized()
      && maxbits == MAXBITS && length == |lens| <= HLIT_TSIZE
      && sizeTable[..length] == lens
      && forall j :: 0 <= j < length && lens[j] > 0 ==> codeTable[j] == CodeOf(lens, j)
    }

    /** The inner loop of make_code_table: the codes of length i, in the order of the symbols. */
    method NumberCodes(i: nat, start: nat, ghost lens: Lengths) returns (code: nat)
      requires Sized() && length <= HLIT_TSIZE && sizeTable[..length] == lens && start == FirstCode(lens, i)
      requires i > 0 && forall k :: 0 <= k < length && 0 < lens[k] < i ==> codeTable[k] == CodeOf(lens, k)
      modifies codeTable
      ensures code == start + Count(lens, i)
      ensures forall k :: 0 <= k < length && 0 < lens[k] < i + 1 ==> codeTable[k] == CodeOf(lens, k)
    {
      hide FirstCode, CodeOf;
      code := start;
      for j := 0 to length
        modifies codeTable
        invariant code == start + CountBefore(lens, i, j)
        invariant forall k :: 0 <= k < length && 0 < lens[k] < i ==> codeTable[k] == CodeOf(lens, k)
        invariant forall k :: 0 <= k < j && lens[k] == i ==> codeTable[k] == CodeOf(lens, k)
      {
        assert sizeTable[j] == sizeTable[..length][j] == lens[j];
        CodeIs(lens, j);
        if sizeTable[j] == i {
          codeTable[j] := code;
          code := code + 1;
        }
      }
    }

    /** make_code_table, for the one value of maxbits that is in use. */
    method MakeCodeTable(count: nat, ghost lens: Lengths)
      requires Sized() && count <= HLIT_TSIZE && sizeTable[..count] == lens
      modifies this, codeTable
      ensures Encodes(lens)
    {
      hide CodeOf, CountBefore, Count;
      var code := 0;
      maxbits := MAXBITS;
      length := count;
      for i := 1 to MAXBITS + 1
        modifies codeTable
        invariant code == FirstCode(lens, i)
        invariant forall j :: 0 <= j < length && 0 < lens[j] < i ==> codeTable[j] == CodeOf(lens, j)
      {
        code := NumberCodes(i, code, lens);
        code := code * 2;
      }
    }
  }

  lemma CodeIs(lens: Lengths, j: nat)
    requires j < |lens|
    ensures CodeOf(lens, j) == FirstCode(lens, lens[j]) + CountBefore(lens, lens[j], j)
  {
  }

  /** io_t */
  class Io {
    const source: Source
    var inPtr: nat
    var out: array<byte>
    var outLength: nat
    var outSize: nat

    constructor (source: Source)
      ensures this.source == source && inPtr == 0 && fresh(out)
    {
      this.source := source;
      inPtr, outLength, outSize := 0, 0, 0;
      out := new byte[0];
    }

    /** There is always room for one more byte. */
    ghost predicate Valid()
      reads this
    {
      outLength < outSize == out.Length
    }

    /** The bytes written so far. */
    ghost function Out(): seq<byte>
      requires outLength <= out.Length
      reads this, out
    {
      out[..outLength]
    }

    /** The bit at a place of the input. */
    method PeekBit(pos: nat) returns (b: bit)
      ensures b == BitAt(source, pos)
    {
      hide ByteAt, Bit;
      var bytePos := pos / 8;
      var bitPos := pos % 8;
      b := if Bit(ByteAt(source, bytePos), bitPos) then 1 else 0;
    }

    method PeekInput(bits: nat, offset: nat) returns (ret: nat)
      ensures ret == Field(source, inPtr + offset, bits)
    {
      hide Field, BitAt, ShiftLeft;
      var pos := inPtr + offset;
      FieldEmpty(source, pos);
      ret := 0;
      for i := 0 to bits
        invariant ret == Field(source, pos, i)
      {
        FieldNext(source, pos, i);
        var b := PeekBit(pos + i);
        ret := ret + ShiftLeft(b, i);
      }
    }

    method ReadInput(bits: nat) returns (ret: nat)
      modifies this`inPtr
      ensures ret == Field(source, old(inPtr), bits) && inPtr == old(inPtr) + bits
    {
      ret := PeekInput(bits, 0);
      inPtr := inPtr + bits;
    }

    method PeekOutput(distance: nat) returns (b: byte)
      requires Valid() && 1 <= distance <= outLength
      ensures b == Out()[outLength - distance]
    {
      b := out[outLength - distance];
    }

    /** Appends a byte; the buffer grows by 1024 bytes as soon as it is full. */
    method WriteOutput(b: byte)
      requires Valid()
      modifies this`out, this`outLength, this`outSize, out
      ensures Valid() && Out() == old(Out()) + [b]
      ensures out == old(out) || fresh(out)
      ensures outSize == if old(outLength) + 1 == old(outSize) then old(outSize) + 1024 else old(outSize)
    {
      out[outLength] := b;
      outLength := outLength + 1;
      assert out[..outLength] == old(out[..outLength]) + [b];
      if outLength == outSize {
        outSize := outSize + 1024;
        var bigger := new byte[outSize];
        forall i | 0 <= i < outLength {
          bigger[i] := out[i];
        }
        assert bigger[..outLength] == out[..outLength];
        out := bigger;
      }
    }

    /** decode_one: the first symbol whose code starts the next MAXBITS bits, or -1. */
    method DecodeOne(tree: HuffmanTree, ghost lens: Lengths) returns (sym: int)
      requires tree.Encodes(lens)
      modifies this`inPtr
      ensures sym == -1 || 0 <= sym < |lens|
      ensures sym >= 0 ==> CodeAt(source, old(inPtr), lens, sym) && inPtr == old(inPtr) + lens[sym]
      ensures sym == -1 ==> inPtr == old(inPtr) && forall j: nat :: !CodeAt(source, inPtr, lens, j)
    {
      hide At, Codeword, CodeOf, Field, Window, BitAt, Pow2;
      WindowEmpty(source, inPtr);
      var code := 0;
      for i := 0 to tree.maxbits
        invariant inPtr == old(inPtr)
        invariant code == Window(source, inPtr, i)
      {
        WindowNext(source, inPtr, i);
        var b := PeekInput(1, i);
        code := code * 2 + b;
      }
      for j := 0 to tree.length
        invariant inPtr == old(inPtr)
        invariant forall i: nat :: i < j ==> !CodeAt(source, inPtr, lens, i)
      {
        assert tree.sizeTable[j] == tree.sizeTable[..tree.length][j] == lens[j];
        if tree.sizeTable[j] > 0 {
          CodeAtWindow(source, inPtr, lens, j);
        }
        if tree.sizeTable[j] > 0 && code / Pow2(tree.maxbits - tree.sizeTable[j]) == tree.codeTable[j] {
          inPtr := inPtr + tree.sizeTable[j];
          return j;
        }
      }
      return -1;
    }
  }
}
