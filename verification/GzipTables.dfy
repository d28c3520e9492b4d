// The Huffman tables of source/tools/gzip/gzip.c: the fixed ones, and the dynamic ones
// that are read from the header of a block.
module GzipTables {
  import opened Words
  import opened BitStream
  import opened HuffmanCode
  import opened DeflateFormat
  import opened DynamicHeader
  import opened BlockFormat
  import opened GzipIo

  /** createFixedHuffmanTables */
  method CreateFixedTables(hlitTree: HuffmanTree, hdistTree: HuffmanTree)
    requires hlitTree.Sized() && hdistTree.Sized() && hlitTree != hdistTree
    requires {hlitTree.sizeTable, hlitTree.codeTable} !! {hdistTree.sizeTable, hdistTree.codeTable}
    modifies hlitTree, hlitTree.sizeTable, hlitTree.codeTable, hdistTree, hdistTree.sizeTable, hdistTree.codeTable
    ensures hlitTree.Encodes(FixedLit()) && hdistTree.Encodes(FixedDist())
  {
    var a := hlitTree.sizeTable;
    SetRange(a, 0, 144, 8);
    SetRange(a, 144, 256, 9);
    SetRange(a, 256, 280, 7);
    SetRange(a, 280, 288, 8);
    assert a[..HLIT_TSIZE] == FixedLit();
    hlitTree.MakeCodeTable(HLIT_TSIZE, FixedLit());
    SetRange(hdistTree.sizeTable, 0, 30, 5);
    assert hdistTree.sizeTable[..HDIST_TSIZE] == FixedDist();
    hdistTree.MakeCodeTable(HDIST_TSIZE, FixedDist());
  }

  method SetRange(a: array<nat>, i: nat, j: nat, v: nat)
    requires i <= j <= a.Length
    modifies a
    ensures forall k :: 0 <= k < a.Length ==> a[k] == if i <= k < j then v else old(a[k])
  {
    for k := i to j
      invariant forall l :: 0 <= l < a.Length ==> a[l] == if i <= l < k then v else old(a[l])
    {
      a[k] := v;
    }
  }

  /** Fills up to n entries of a table from place j on, but none at or beyond limit. */
  method FillTable(a: array<nat>, j: nat, n: nat, limit: nat, v: nat) returns (ok: bool, i: nat)
    requires j < limit && j <= a.Length && n > 0 && v <= MAXBITS
    modifies a
    ensures ok <==> (if j + n < limit then j + n else limit) <= a.Length
    ensures ok ==> i == (if j + n < limit then n else limit - j)
    ensures ok ==> a[..j + i] == old(a[..j]) + Fill(v, i)
  {
    i := 0;
    while i < n && j + i < limit
      invariant i <= n && j + i <= limit && j + i <= a.Length
      invariant a[..j + i] == old(a[..j]) + Fill(v, i)
    {
      if j + i == a.Length {
        return false, i;
      }
      a[j + i] := v;
      assert a[..j + i + 1] == a[..j + i] + [v];
      assert Fill(v, i + 1) == Fill(v, i) + [v];
      i := i + 1;
    }
    ok := true;
  }

  /** The branches for the code length symbols 16, 17 and 18. */
  method StoreRun(io: Io, sym: nat, a: array<nat>, j0: nat, limit: nat, ghost lens: Lengths)
    returns (ok: bool, j: nat, remainder: nat, remVal: nat, ghost run: Run)
    requires 16 <= sym <= 18
    requires j0 < limit <= a.Length && a[..j0] == lens
    modifies io`inPtr, a
    ensures RunOk(run) && RunSymbol(run) == sym && io.inPtr == old(io.inPtr) + RunBits(run)
    ensures Field(io.source, old(io.inPtr), RunBits(run)) == RunExtra(run)
    ensures ok ==>
              && (run.Repeat? ==> |lens| > 0)
              && var lens' := ExpandRun(lens, run);
              && j == Min(|lens'|, Guard(run, limit)) <= a.Length
              && a[..j] == lens'[..j]
              && remainder == |lens'| - j && remVal == Last(lens')
    ensures !ok ==> (run.Repeat? && |lens| == 0) || Min(j0 + RunLength(run), Guard(run, limit)) > a.Length
  {
    hide Field, Fill, ExpandRun;
    assert Pow2(2) == 4 && Pow2(3) == 8 && Pow2(4) == 16 && Pow2(7) == 128;
    var bits := if sym == 16 then 2 else if sym == 17 then 3 else 7;
    FieldBound(io.source, io.inPtr, bits);
    var k := io.ReadInput(bits);
    run := if sym == 16 then Repeat(k) else if sym == 17 then Zeros(k) else LongZeros(k);
    j, remainder, remVal := j0, 0, 0;
    if sym == 16 && j == 0 {
      return false, j, remainder, remVal, run;
    }
    var n := if sym == 18 then k + 11 else k + 3;
    var v := if sym == 16 then a[j - 1] else 0;
    assert v == RunValue(lens, run) && n == RunLength(run);
    var i;
    ok, i := FillTable(a, j, n, if sym == 18 then limit + 10 else limit, v);
    if ok {
      FillPrefix(lens, run, v, n, i);
      j := j + i - 1;
      remainder := n - i;
      remVal := if sym == 16 then a[j - 1] else 0;
      j := j + 1;
    }
  }

  /** What a loop over a compressed table has to do: read runs in the code clens from start on until
      they supply end lengths, of which some are carried over, and store them up to limit. */
  datatype Job = Job(source: Source, start: nat, clens: Lengths, carried: Lengths, end: nat, limit: nat)

  /** One round of the loops over a compressed table: reads a run and stores as much of it as
      the guard allows. */
  method ReadRun(io: Io, codeTree: HuffmanTree, a: array<nat>, j0: nat, limit: nat,
                 remainder0: nat, remVal0: nat, ghost g: Job, ghost t: ReadTable)
    returns (r: Status, j: nat, remainder: nat, remVal: nat, ghost run: Run, ghost t': ReadTable)
    requires codeTree.Encodes(g.clens) && |g.clens| == CLEN_TSIZE && io.source == g.source && limit == g.limit
    requires a != codeTree.sizeTable && a != codeTree.codeTable
    requires t == ReadTable(t.runs, io.inPtr, t.lens, j0, remainder0, remVal0)
    requires j0 < limit <= a.Length && a[..j0] == t.lens
    modifies io`inPtr, a
    ensures r.Ok? ==>
              && Stored(g, t, run, a[..], t') && RunAt(g.source, t.pos, g.clens, run)
              && t' == ReadTable(t.runs + [run], io.inPtr, ExpandRun(t.lens, run), j, remainder, remVal)
    ensures !r.Ok? ==> forall u :: RunAt(g.source, t.pos, g.clens, u) ==>
              (u.Repeat? && |t.lens| == 0) || Min(j0 + RunLength(u), Guard(u, limit)) > a.Length
  {
    hide At, CodeOf, Codeword, Field, CodeAt, Fill;
    j, remainder, remVal, run, t' := j0, remainder0, remVal0, Single(0), t;
    r := Ok;
    var b := io.DecodeOne(codeTree, g.clens);
    if b == -1 {
      r := Bad;
    } else if b < 16 {
      FieldEmpty(g.source, t.pos + g.clens[b]);
      assert Pow2(0) == 1;
      run := Single(b);
      a[j] := b;
      j := j + 1;
      assert a[..j] == t.lens + [b];
      assert Fill(b, 1) == [b];
      t' := ReadTable(t.runs + [run], io.inPtr, ExpandRun(t.lens, run), j, remainder, remVal);
    } else {
      var ok;
      ok, j, remainder, remVal, run := StoreRun(io, b, a, j, limit, t.lens);
      assert RunAt(g.source, t.pos, g.clens, run);
      if !ok {
        forall u | RunAt(g.source, t.pos, g.clens, u) ensures u == run {
          RunUnique(g.source, t.pos, g.clens, u, run);
        }
        r := Fault;
      } else {
        t' := ReadTable(t.runs + [run], io.inPtr, ExpandRun(t.lens, run), j, remainder, remVal);
      }
    }
  }

  /** The state of the loop over a compressed table: the table is filled with the lengths that have
      been read, apart from what remains of the last run. */
  ghost predicate Reading(g: Job, table: seq<nat>, t: ReadTable) {
    && RunProgress(g.source, g.start, g.clens, g.carried, t.runs, t.pos, t.lens)
    && t.stored <= |t.lens| && t.stored <= |table| && table[..t.stored] == t.lens[..t.stored]
    && (t.stored < g.end ==> |t.lens| == t.stored)
    && t.remainder == |t.lens| - t.stored && t.remVal <= MAXBITS && (t.remainder > 0 ==> t.remVal == Last(t.lens))
    && (|t.runs| > 0 ==> Legal(g.carried, Front(t.runs)) && |ExpandRuns(g.carried, Front(t.runs))| < g.end)
    && t.stored == Written(t, g.limit)
  }

  /** How many of the lengths that have been read the guards of the loops let into the table. */
  function Written(t: ReadTable, limit: nat): nat {
    if |t.runs| == 0 then |t.lens| else Min(|t.lens|, Guard(Last(t.runs), limit))
  }

  /** What ReadRun promises about the run it reads. */
  ghost predicate Stored(g: Job, t: ReadTable, run: Run, table: seq<nat>, t': ReadTable) {
    && RunAt(g.source, t.pos, g.clens, run) && (run.Repeat? ==> |t.lens| > 0) && RunSymbol(run) < |g.clens|
    && t'.runs == t.runs + [run] && t'.lens == ExpandRun(t.lens, run)
    && t'.pos == t.pos + g.clens[RunSymbol(run)] + RunBits(run)
    && t'.stored == Min(|t'.lens|, Guard(run, g.limit)) <= |table|
    && table[..t'.stored] == t'.lens[..t'.stored]
    && (run.Single? ==> t'.remainder == t.remainder && t'.remVal == t.remVal)
    && (!run.Single? ==> t'.remainder == |t'.lens| - t'.stored && t'.remVal == Last(t'.lens))
  }

  lemma ReadingStart(g: Job, table: seq<nat>)
    requires |g.carried| <= |table| && table[..|g.carried|] == g.carried
    ensures Reading(g, table, ReadTable([], g.start, g.carried, |g.carried|, 0, 0))
  {
    hide CodeAt;
  }

  lemma ReadingLens(g: Job, table: seq<nat>, t: ReadTable)
    requires Reading(g, table, t) && t.stored < g.end
    ensures t.stored == |t.lens| <= |table| && table[..t.stored] == t.lens && t.remainder == 0
    ensures RunProgress(g.source, g.start, g.clens, g.carried, t.runs, t.pos, t.lens)
  {
    hide RunProgress;
  }

  lemma ReadingNext(g: Job, table: seq<nat>, t: ReadTable, run: Run, table': seq<nat>, t': ReadTable)
    requires Reading(g, table, t) && t.stored < g.end <= g.limit && Stored(g, t, run, table', t')
    ensures RunOk(run) && (run.Repeat? ==> |t.lens| > 0)
    ensures |t'.lens| > |t.lens| && t'.stored > t.stored
    ensures Reading(g, table', t')
  {
    hide At, CodeOf, RunsAt, EncodeRun, EncodeRuns, Codeword, CodeAt;
    hide RunProgress, RunAt, ExpandRuns;
    RunProgressStep(g.source, g.start, g.clens, g.carried, t.runs, t.pos, t.lens, run);
    FrontOf(g, t, run);
    LastFilled(t.lens, run);
  }

  lemma LastFilled(lens: Lengths, run: Run)
    requires RunOk(run) && (run.Repeat? ==> |lens| > 0)
    ensures |ExpandRun(lens, run)| == |lens| + RunLength(run) > |lens|
    ensures Last(ExpandRun(lens, run)) == RunValue(lens, run) <= MAXBITS
    ensures run.Single? ==> RunLength(run) == 1
  {
  }

  /** The loop over a compressed table, which the C code has once for each table: reads runs
      until the table has end lengths. */
  method ReadLengths(io: Io, codeTree: HuffmanTree, a: array<nat>, j0: nat, end: nat, limit: nat, ghost g: Job)
    returns (r: Status, j: nat, remainder: nat, remVal: nat, ghost t: ReadTable)
    requires g == Job(io.source, io.inPtr, g.clens, g.carried, end, limit)
    requires codeTree.Encodes(g.clens) && |g.clens| == CLEN_TSIZE
    requires a != codeTree.sizeTable && a != codeTree.codeTable
    requires end <= limit <= a.Length == HLIT_TSIZE && j0 <= a.Length && a[..j0] == g.carried
    modifies io`inPtr, a
    ensures r.Ok? ==>
              && j >= end && Reading(g, a[..], t)
              && t == ReadTable(t.runs, io.inPtr, t.lens, j, remainder, remVal)
    ensures !r.Ok? ==> NoSupply(g.source, g.start, g.clens, g.carried, end, limit, HLIT_TSIZE)
  {
    hide At, CodeOf, RunsAt, RunAt, RunOk, Supply, ExpandRun, EncodeRun, EncodeRuns, Legal, RunsEncodable,
         RunProgress, Reading, Stored;
    ghost var any := exists w :: Supply(g.source, g.start, g.clens, g.carried, end, limit, HLIT_TSIZE, w);
    ghost var w: seq<Run> := [];
    if any {
      w :| Supply(g.source, g.start, g.clens, g.carried, end, limit, HLIT_TSIZE, w);
    }
    r, j, remainder, remVal := Ok, j0, 0, 0;
    t := ReadTable([], io.inPtr, g.carried, j, 0, 0);
    assert a[..][..|g.carried|] == g.carried;
    ReadingStart(g, a[..]);
    while j < end
      invariant r.Ok? && codeTree.Encodes(g.clens)
      invariant Reading(g, a[..], t) && t == ReadTable(t.runs, io.inPtr, t.lens, j, remainder, remVal)
      invariant any ==> Supply(g.source, g.start, g.clens, g.carried, end, limit, HLIT_TSIZE, w) && t.runs <= w
    {
      ghost var table, t0 := a[..], t;
      ReadingLens(g, table, t);
      if any {
        SupplyNext(g.source, g.start, g.clens, g.carried, end, limit, HLIT_TSIZE, t.runs, t.pos, t.lens, w);
      }
      ghost var run;
      assert a[..j] == table[..j];
      r, j, remainder, remVal, run, t := ReadRun(io, codeTree, a, j, limit, remainder, remVal, g, t);
      if !r.Ok? {
        return;
      }
      ReadingNext(g, table, t0, run, a[..], t);
      if any {
        RunUnique(g.source, t0.pos, g.clens, run, w[|t0.runs|]);
      }
    }
  }

  lemma FrontOf(g: Job, t: ReadTable, run: Run)
    requires RunProgress(g.source, g.start, g.clens, g.carried, t.runs, t.pos, t.lens)
    ensures Front(t.runs + [run]) == t.runs && Last(t.runs + [run]) == run
    ensures Legal(g.carried, t.runs) && ExpandRuns(g.carried, t.runs) == t.lens
  {
  }

  /** What the first i entries of a run look like in a table that holds the lengths before it. */
  lemma FillPrefix(lens: Lengths, run: Run, v: nat, n: nat, i: nat)
    requires RunOk(run) && (run.Repeat? ==> |lens| > 0) && v == RunValue(lens, run) && n == RunLength(run)
    requires v <= MAXBITS && 0 < i <= n
    ensures |ExpandRun(lens, run)| == |lens| + n && Last(ExpandRun(lens, run)) == v
    ensures ExpandRun(lens, run)[..|lens| + i] == lens + Fill(v, i)
  {
  }

  /** The loops that read the lengths of the code length code and clear those that are not sent. */
  method ReadCodeLengths(io: Io, codeTree: HuffmanTree, count: nat) returns (ghost raw: seq<nat>)
    requires codeTree.Sized() && count <= CLEN_TSIZE
    modifies io`inPtr, codeTree.sizeTable
    ensures |raw| == count && RawOk(raw)
    ensures forall i :: 0 <= i < count ==> raw[i] == Field(io.source, old(io.inPtr) + 3 * i, 3)
    ensures io.inPtr == old(io.inPtr) + 3 * count
    ensures codeTree.sizeTable[..CLEN_TSIZE] == CodeLengths(raw)
    ensures codeTree.sizeTable[..19] == InSendingOrder(io.source, old(io.inPtr), count)
  {
    hide Field, CodeLengths, InSendingOrder;
    ghost var start := io.inPtr;
    OrderInRange();
    assert Pow2(3) == 8;
    raw := [];
    for i := 0 to count
      invariant |raw| == i && RawOk(raw)
      invariant forall k :: 0 <= k < i ==> raw[k] == Field(io.source, old(io.inPtr) + 3 * k, 3)
      invariant io.inPtr == old(io.inPtr) + 3 * i
      invariant forall k :: 0 <= k < i ==> codeTree.sizeTable[CLEN_ORDER[k]] == raw[k]
    {
      FieldBound(io.source, io.inPtr, 3);
      var length := io.ReadInput(3);
      codeTree.sizeTable[CLEN_ORDER[i]] := length;
      raw := raw + [length];
    }
    for i := count to CLEN_TSIZE
      modifies codeTree.sizeTable
      invariant forall k :: 0 <= k < i ==> codeTree.sizeTable[CLEN_ORDER[k]] == if k < count then raw[k] else 0
    {
      codeTree.sizeTable[CLEN_ORDER[i]] := 0;
    }
    CodeLengthsBuilt(codeTree.sizeTable[..CLEN_TSIZE], raw);
    FieldsInOrder(io.source, start, raw);
  }

  /** The k-th of count fields of three bits from start on, 0 if there are not so many. */
  function SentField(s: Source, start: nat, count: nat, k: nat): nat {
    if k < count then Field(s, start + 3 * k, 3) else 0
  }

  /** The lengths for the symbols 0 to 18 that are sent from start on: those of 16, 17, 18, 0, 8, 7, 9, 6,
      10, 5, 11, 4, 12, 3, 13, 2, 14, 1, 15 one after the other. */
  function InSendingOrder(s: Source, start: nat, n: nat): seq<nat> {
    [SentField(s, start, n, 3), SentField(s, start, n, 17), SentField(s, start, n, 15), SentField(s, start, n, 13),
     SentField(s, start, n, 11), SentField(s, start, n, 9), SentField(s, start, n, 7), SentField(s, start, n, 5),
     SentField(s, start, n, 4), SentField(s, start, n, 6), SentField(s, start, n, 8), SentField(s, start, n, 10),
     SentField(s, start, n, 12), SentField(s, start, n, 14), SentField(s, start, n, 16), SentField(s, start, n, 18),
     SentField(s, start, n, 0), SentField(s, start, n, 1), SentField(s, start, n, 2)]
  }

  lemma FieldsInOrder(s: Source, start: nat, raw: seq<nat>)
    requires RawOk(raw) && forall i :: 0 <= i < |raw| ==> raw[i] == Field(s, start + 3 * i, 3)
    ensures CodeLengths(raw) == InSendingOrder(s, start, |raw|)
  {
    hide Field, CodeLengths;
    SendingOrder(raw);
    assert forall k: nat :: Sent(raw, k) == SentField(s, start, |raw|, k);
  }

  lemma OrderInRange()
    ensures forall k :: 0 <= k < CLEN_TSIZE ==> CLEN_ORDER[k] < CLEN_TSIZE
    ensures forall k, l :: 0 <= k < l < CLEN_TSIZE ==> CLEN_ORDER[k] != CLEN_ORDER[l]
  {
    ClenOrder();
    forall k, l | 0 <= k < l < CLEN_TSIZE ensures CLEN_ORDER[k] != CLEN_ORDER[l] {
      assert CLEN_PLACE[CLEN_ORDER[k]] != CLEN_PLACE[CLEN_ORDER[l]];
    }
  }

  lemma CodeLengthsBuilt(a: seq<nat>, raw: seq<nat>)
    requires RawOk(raw) && |a| == CLEN_TSIZE
    requires forall k :: 0 <= k < CLEN_TSIZE ==> CLEN_ORDER[k] < CLEN_TSIZE
    requires forall k :: 0 <= k < CLEN_TSIZE ==> a[CLEN_ORDER[k]] == if k < |raw| then raw[k] else 0
    ensures a == CodeLengths(raw)
  {
    ClenOrder();
    forall j | 0 <= j < CLEN_TSIZE ensures a[j] == CodeLengths(raw)[j] {
      assert CLEN_ORDER[CLEN_PLACE[j]] == j;
    }
  }

  /** Clears a table from place j on. */
  method PadTable(a: array<nat>, j: nat, size: nat)
    requires size <= a.Length
    modifies a
    ensures forall i :: 0 <= i < a.Length ==> a[i] == if j <= i < size then 0 else old(a[i])
  {
    var k := j;
    while k < size
      invariant j <= k
      invariant forall i :: 0 <= i < a.Length ==> a[i] == if j <= i < k && i < size then 0 else old(a[i])
    {
      a[k] := 0;
      k := k + 1;
    }
  }

  lemma PaddedTable(table: seq<nat>, a: seq<nat>, lens: Lengths, j: nat, size: nat)
    requires size <= |a| == |table| && j <= |lens| && j <= |a|
    requires table[..j] == lens[..j]
    requires forall i :: 0 <= i < |a| ==> a[i] == if j <= i < size then 0 else table[i]
    ensures a[..size] == Padded(lens[..j], size)
  {
    forall i | 0 <= i < size ensures a[i] == Padded(lens[..j], size)[i] {
      assert i < j ==> a[i] == table[..j][i] == lens[..j][i];
    }
  }

  /** The literal table when its loop has ended. */
  lemma FirstRead(g: Job, table: seq<nat>, t: ReadTable)
    requires Reading(g, table, t) && g.carried == [] && t.stored >= g.end == g.limit > 0
    ensures FirstTable(g.source, g.start, g.clens, g.end, t) && t.remVal <= MAXBITS
    ensures t.stored <= |t.lens| && t.stored <= |table| && table[..t.stored] == t.lens[..t.stored]
  {
    hide RunsAt, RunOk;
  }

  /** The distance table when its loop has ended. */
  lemma SecondRead(g: Job, table: seq<nat>, t: ReadTable)
    requires Reading(g, table, t) && t.stored >= g.end && g.end <= g.limit
    ensures SecondTable(g.source, g.start, g.clens, g.carried, g.end, t) && t.pos >= g.start
    ensures t.stored <= |t.lens| && t.stored <= |table| && table[..t.stored] == t.lens[..t.stored]
    ensures t.stored == Written(t, g.limit) && (|t.lens| == g.end ==> t.stored == |t.lens|)
  {
    hide RunsAt, RunOk, Legal;
  }

  /** The first half of createDynamicHuffmanTables: the code length code and the literal table. */
  method CreateLiteralTable(io: Io, hlitTree: HuffmanTree, codeTree: HuffmanTree, hclen: nat, lits: nat)
    returns (r: Status, remainder: nat, remVal: nat, ghost raw: seq<nat>, ghost p: nat, ghost t: ReadTable)
    requires hlitTree.Sized() && codeTree.Sized() && hclen < 16 && 257 <= lits <= HLIT_TSIZE
    requires hlitTree != codeTree &&
             {hlitTree.sizeTable, hlitTree.codeTable} !! {codeTree.sizeTable, codeTree.codeTable}
    modifies io`inPtr, hlitTree, hlitTree.sizeTable, hlitTree.codeTable, codeTree, codeTree.sizeTable,
             codeTree.codeTable
    ensures |raw| == 4 + hclen && RawOk(raw) && p == old(io.inPtr) + 3 * |raw|
    ensures forall i :: 0 <= i < |raw| ==> raw[i] == Field(io.source, old(io.inPtr) + 3 * i, 3)
    ensures r.Ok? ==>
              && codeTree.Encodes(CodeLengths(raw))
              && FirstTable(io.source, p, CodeLengths(raw), lits, t)
              && t.pos == io.inPtr && t.remainder == remainder && t.remVal == remVal <= MAXBITS
              && hlitTree.Encodes(LitTable(t))
    ensures !r.Ok? ==> NoSupply(io.source, p, CodeLengths(raw), [], lits, lits, HLIT_TSIZE)
  {
    hide CodeLengths, NoSupply, RunsAt, FirstCode, CountBefore, RawOk, Field, Reading, FirstTable, Padded;
    raw := ReadCodeLengths(io, codeTree, 4 + hclen);
    p := io.inPtr;
    ghost var clens := CodeLengths(raw);
    codeTree.MakeCodeTable(CLEN_TSIZE, clens);
    var j;
    ghost var g := Job(io.source, p, clens, [], lits, lits);
    r, j, remainder, remVal, t := ReadLengths(io, codeTree, hlitTree.sizeTable, 0, lits, lits, g);
    if r.Ok? {
      ghost var table := hlitTree.sizeTable[..];
      FirstRead(g, table, t);
      PadTable(hlitTree.sizeTable, j, HLIT_TSIZE);
      PaddedTable(table, hlitTree.sizeTable[..], t.lens, j, HLIT_TSIZE);
      hlitTree.MakeCodeTable(HLIT_TSIZE, LitTable(t));
    }
  }

  /** The second half of createDynamicHuffmanTables: the distance table, which starts with what
      is left of the last run of the literal table. */
  method CreateDistanceTable(io: Io, hdistTree: HuffmanTree, codeTree: HuffmanTree,
                             dists: nat, lits: nat, remainder: nat, remVal: nat, ghost clens: Lengths)
    returns (r: Status, ghost t: ReadTable)
    requires hdistTree.Sized() && codeTree.Encodes(clens) && |clens| == CLEN_TSIZE
    requires hdistTree != codeTree &&
             {hdistTree.sizeTable, hdistTree.codeTable} !! {codeTree.sizeTable, codeTree.codeTable}
    requires dists <= lits <= HLIT_TSIZE && remainder <= HLIT_TSIZE && remVal <= MAXBITS
    modifies io`inPtr, hdistTree, hdistTree.sizeTable, hdistTree.codeTable
    ensures r.Ok? ==>
              && SecondTable(io.source, old(io.inPtr), clens, Fill(remVal, remainder), dists, t)
              && t.pos == io.inPtr >= old(io.inPtr)
              && t.stored == Written(t, lits) <= |t.lens| && (|t.lens| == dists ==> t.stored == |t.lens|)
              && hdistTree.Encodes(DistTable(t))
    ensures !r.Ok? ==> NoSupply(io.source, old(io.inPtr), clens, Fill(remVal, remainder), dists, lits, HLIT_TSIZE)
  {
    hide NoSupply, RunsAt, FirstCode, CountBefore, Reading, SecondTable, Padded;
    ghost var g := Job(io.source, io.inPtr, clens, Fill(remVal, remainder), dists, lits);
    for k := 0 to remainder
      modifies hdistTree.sizeTable
      invariant forall i :: 0 <= i < k ==> hdistTree.sizeTable[i] == remVal
    {
      hdistTree.sizeTable[k] := remVal;
    }
    assert hdistTree.sizeTable[..remainder] == g.carried;
    var j, unused0, unused1;
    r, j, unused0, unused1, t := ReadLengths(io, codeTree, hdistTree.sizeTable, remainder, dists, lits, g);
    if r.Ok? {
      ghost var table := hdistTree.sizeTable[..];
      SecondRead(g, table, t);
      PadTable(hdistTree.sizeTable, j, HDIST_TSIZE);
      PaddedTable(table, hdistTree.sizeTable[..], t.lens, j, HDIST_TSIZE);
      hdistTree.MakeCodeTable(HDIST_TSIZE, DistTable(t));
    }
  }

  /** The literal code that has been built from a table. */
  function LitTable(t: ReadTable): (lens: Lengths)
    requires t.stored <= |t.lens|
    ensures |lens| == HLIT_TSIZE
  {
    Padded(t.lens[..t.stored], HLIT_TSIZE)
  }

  /** The distance code. */
  function DistTable(t: ReadTable): (lens: Lengths)
    requires t.stored <= |t.lens|
    ensures |lens| == HDIST_TSIZE
  {
    Padded(t.lens[..t.stored], HDIST_TSIZE)
  }

  /** The tables that createDynamicHuffmanTables has read from a position on, whatever stands there:
      raw are the lengths of the code length code. */
  datatype Tables = Tables(raw: seq<nat>, lit: ReadTable, dist: ReadTable) {
    predicate Whole() {
      lit.stored <= |lit.lens| && dist.stored <= |dist.lens|
    }

    ghost predicate ReadAt(s: Source, start: nat) {
      var lits, dists := 257 + Field(s, start, 5), 1 + Field(s, start + 5, 5);
      && |raw| == 4 + Field(s, start + 10, 4) && RawOk(raw)
      && (forall i :: 0 <= i < |raw| ==> raw[i] == Field(s, start + 14 + 3 * i, 3))
      && FirstTable(s, start + 14 + 3 * |raw|, CodeLengths(raw), lits, lit)
      && SecondTable(s, lit.pos, CodeLengths(raw), Fill(lit.remVal, lit.remainder), dists, dist)
      && Whole() && dist.stored == Written(dist, lits)
    }

    /** The codes that have been built. */
    function Codes(): Codes
      requires Whole()
    {
      DeflateFormat.Codes(LitTable(lit), DistTable(dist))
    }
  }

  /** createDynamicHuffmanTables.  On the header of a dynamic block it stops at the end of the
      header exactly when the header is safe, and then it has built the two codes. */
  method CreateDynamicTables(io: Io, hlitTree: HuffmanTree, hdistTree: HuffmanTree)
    returns (r: Status, ghost t: Tables)
    requires hlitTree.Sized() && hdistTree.Sized() && hlitTree != hdistTree
    requires {hlitTree.sizeTable, hlitTree.codeTable} !! {hdistTree.sizeTable, hdistTree.codeTable}
    modifies io`inPtr, hlitTree, hlitTree.sizeTable, hlitTree.codeTable, hdistTree, hdistTree.sizeTable,
             hdistTree.codeTable
    ensures r.Ok? ==> t.ReadAt(io.source, old(io.inPtr)) && t.dist.pos == io.inPtr >= old(io.inPtr)
    ensures r.Ok? ==> t.Whole() && CodesSized(t.Codes())
    ensures r.Ok? ==> hlitTree.Encodes(t.Codes().lit) && hdistTree.Encodes(t.Codes().dist)
    ensures forall h :: HeaderAt(io.source, old(io.inPtr), h) ==>
              (Safe(h) <==> r.Ok? && io.inPtr == old(io.inPtr) + |EncodeHeader(h)|)
    ensures forall h :: HeaderAt(io.source, old(io.inPtr), h) && Safe(h) ==> t.Codes() == DynamicCodes(h)
  {
    hide At, CodeLengths, Supply, RunsAt, FirstCode, CountBefore, RawOk, Field, TotalLength, Lsb, Msb;
    hide HeaderAt, HeaderOk, Safe, LitLengths, DistLengths, EncodeHeader, FirstTable, SecondTable, Padded, Fill,
         EncodeRuns;
    ghost var s, start := io.source, io.inPtr;
    ReadsInRange(s, start);
    var hlit := io.ReadInput(5);
    var hdist := io.ReadInput(5);
    var hclen := io.ReadInput(4);
    var lits, dists := 257 + hlit, 1 + hdist;
    var codeTree := new HuffmanTree();
    var remainder, remVal;
    ghost var raw, p, t1, t2;
    r, remainder, remVal, raw, p, t1 := CreateLiteralTable(io, hlitTree, codeTree, hclen, lits);
    t := Tables(raw, t1, t1);
    forall h | HeaderAt(s, start, h)
      ensures HeaderOk(h) && h.raw == raw && LitCount(h) == lits && DistCount(h) == dists
      ensures RunsEncodable(CodeLengths(raw), h.runs)
      ensures RunsAt(s, p, CodeLengths(raw), h.runs)
      ensures |EncodeHeader(h)| == p - start + |EncodeRuns(CodeLengths(raw), h.runs)|
    {
      HeaderIs(s, start, h, raw);
    }
    if !r.Ok? {
      forall h | HeaderAt(s, start, h) ensures !Safe(h) {
        FirstFails(s, p, h);
      }
      return;
    }
    RemainderSmall(s, p, CodeLengths(raw), lits, t1);
    r, t2 := CreateDistanceTable(io, hdistTree, codeTree, dists, lits, remainder, remVal, CodeLengths(raw));
    ProgressForward(s, p, CodeLengths(raw), lits, t1);
    t := Tables(raw, t1, t2);
    if !r.Ok? {
      forall h | HeaderAt(s, start, h) ensures !Safe(h) {
        SecondFails(s, p, h, t1);
      }
    } else {
      assert |t2.lens| == dists ==> t2.lens[..t2.stored] == t2.lens;
      forall h | HeaderAt(s, start, h)
        ensures Safe(h) <==> t2.pos == start + |EncodeHeader(h)|
        ensures Safe(h) ==> t.Codes() == DynamicCodes(h)
      {
        BothSucceed(s, p, h, t1, t2);
      }
    }
  }

  lemma ProgressForward(s: Source, p: nat, clens: Lengths, lits: nat, t: ReadTable)
    requires FirstTable(s, p, clens, lits, t)
    ensures t.pos >= p && t.stored <= |t.lens|
  {
  }

  lemma ReadsInRange(s: Source, start: nat)
    ensures Field(s, start, 5) < 32 && Field(s, start + 5, 5) < 32 && Field(s, start + 10, 4) < 16
  {
    FieldBound(s, start, 5);
    FieldBound(s, start + 5, 5);
    FieldBound(s, start + 10, 4);
    assert Pow2(4) == 16 && Pow2(5) == 32;
  }
}
