// The header of a dynamic block, section 3.2.7 of RFC 1951: the code lengths of the two
// Huffman codes, compressed by run lengths as one sequence.
module DynamicHeader {
  import opened Words
  import opened BitStream
  import opened HuffmanCode
  import opened DeflateFormat

  const CLEN_TSIZE: nat := 19

  /** The order in which the lengths of the code length code are sent. */
  const CLEN_ORDER: seq<nat> := [16, 17, 18, 0, 8, 7, 9, 6, 10, 5, 11, 4, 12, 3, 13, 2, 14, 1, 15]

  // ---------------------------------------------------------------------------
  // Runs of code lengths

  datatype Run =
    | Single(length: nat)    // symbols 0 to 15
    | Repeat(extra: nat)     // symbol 16: the previous length, 3 to 6 times
    | Zeros(extra: nat)      // symbol 17: 3 to 10 zeros
    | LongZeros(extra: nat)  // symbol 18: 11 to 138 zeros

  function RunSymbol(r: Run): nat {
    match r
    case Single(n) => n
    case Repeat(_) => 16
    case Zeros(_) => 17
    case LongZeros(_) => 18
  }

  function RunBits(r: Run): nat {
    match r
    case Single(_) => 0
    case Repeat(_) => 2
    case Zeros(_) => 3
    case LongZeros(_) => 7
  }

  function RunExtra(r: Run): nat {
    if r.Single? then 0 else r.extra
  }

  predicate RunOk(r: Run) {
    (r.Single? ==> r.length <= MAXBITS) && RunExtra(r) < Pow2(RunBits(r))
  }

  function RunLength(r: Run): (n: nat)
    ensures n > 0
  {
    match r
    case Single(_) => 1
    case Repeat(k) => k + 3
    case Zeros(k) => k + 3
    case LongZeros(k) => k + 11
  }

  /** The value of the lengths in a run that follows the given lengths. */
  function RunValue(lens: Lengths, r: Run): (v: nat)
    requires RunOk(r) && (r.Repeat? ==> |lens| > 0)
    ensures v <= MAXBITS
  {
    match r
    case Single(n) => n
    case Repeat(_) => Last(lens)
    case Zeros(_) => 0
    case LongZeros(_) => 0
  }

  function Fill(v: nat, n: nat): (lens: Lengths)
    requires v <= MAXBITS
    ensures |lens| == n && forall i :: 0 <= i < n ==> lens[i] == v
  {
    seq(n, _ => v)
  }

  function ExpandRun(lens: Lengths, r: Run): (lens': Lengths)
    requires RunOk(r) && (r.Repeat? ==> |lens| > 0)
    ensures |lens'| == |lens| + RunLength(r) && lens <= lens'
  {
    lens + Fill(RunValue(lens, r), RunLength(r))
  }

  /** A repetition needs a length to repeat. */
  predicate Legal(lens: Lengths, rs: seq<Run>) {
    && (forall i :: 0 <= i < |rs| ==> RunOk(rs[i]))
    && (|lens| == 0 && |rs| > 0 ==> !rs[0].Repeat?)
  }

  function ExpandRuns(lens: Lengths, rs: seq<Run>): (lens': Lengths)
    requires Legal(lens, rs)
    ensures |lens'| >= |lens| + |rs| && lens <= lens'
  {
    if |rs| == 0 then lens else ExpandRun(ExpandRuns(lens, Front(rs)), Last(rs))
  }

  // ---------------------------------------------------------------------------
  // Runs in a stream

  function EncodeRun(clens: Lengths, r: Run): seq<bit>
    requires RunSymbol(r) < |clens|
  {
    Codeword(clens, RunSymbol(r)) + Lsb(RunExtra(r), RunBits(r))
  }

  predicate RunsEncodable(clens: Lengths, rs: seq<Run>) {
    forall i :: 0 <= i < |rs| ==> Fits(clens, RunSymbol(rs[i]))
  }

  function EncodeRuns(clens: Lengths, rs: seq<Run>): seq<bit>
    requires RunsEncodable(clens, rs)
  {
    if |rs| == 0 then [] else EncodeRuns(clens, Front(rs)) + EncodeRun(clens, Last(rs))
  }

  ghost predicate RunAt(s: Source, pos: nat, clens: Lengths, r: Run) {
    && RunOk(r)
    && CodeAt(s, pos, clens, RunSymbol(r))
    && Field(s, pos + clens[RunSymbol(r)], RunBits(r)) == RunExtra(r)
  }

  lemma RunAtEncoding(s: Source, pos: nat, clens: Lengths, r: Run)
    requires RunOk(r) && Fits(clens, RunSymbol(r))
    ensures RunAt(s, pos, clens, r) <==> At(s, pos, EncodeRun(clens, r))
  {
    hide At, CodeOf, Field, Lsb, Msb;
    AtConcat(s, pos, Codeword(clens, RunSymbol(r)), Lsb(RunExtra(r), RunBits(r)));
    AtLsb(s, pos + clens[RunSymbol(r)], RunExtra(r), RunBits(r));
  }

  lemma RunUnique(s: Source, pos: nat, clens: Lengths, r: Run, r': Run)
    requires RunAt(s, pos, clens, r) && RunAt(s, pos, clens, r')
    ensures r == r'
  {
    hide At, CodeOf, Field, Codeword;
    CodeUnique(s, pos, clens, RunSymbol(r), RunSymbol(r'));
  }

  /** The stream holds the runs at pos. */
  ghost predicate RunsAt(s: Source, pos: nat, clens: Lengths, rs: seq<Run>) {
    && RunsEncodable(clens, rs)
    && (forall i :: 0 <= i < |rs| ==> RunOk(rs[i]))
    && At(s, pos, EncodeRuns(clens, rs))
  }

  /** The bits of the first n runs. */
  ghost function RunsEnd(clens: Lengths, rs: seq<Run>, n: nat): nat
    requires n <= |rs| && RunsEncodable(clens, rs)
  {
    |EncodeRuns(clens, rs[..n])|
  }

  /** Run n stands right after the first n runs. */
  lemma {:induction false} RunInRuns(s: Source, pos: nat, clens: Lengths, rs: seq<Run>, n: nat)
    requires RunsAt(s, pos, clens, rs) && n < |rs|
    ensures RunAt(s, pos + RunsEnd(clens, rs, n), clens, rs[n])
    ensures RunsEnd(clens, rs, n + 1) == RunsEnd(clens, rs, n) + |EncodeRun(clens, rs[n])|
  {
    hide At, EncodeRun, RunAt, RunOk;
    var front := Front(rs);
    AtConcat(s, pos, EncodeRuns(clens, front), EncodeRun(clens, Last(rs)));
    if n < |front| {
      RunInRuns(s, pos, clens, front, n);
      assert front[..n] == rs[..n] && front[..n + 1] == rs[..n + 1];
    } else {
      assert rs[..n] == front && rs[..n + 1] == rs;
      RunAtEncoding(s, pos + |EncodeRuns(clens, front)|, clens, Last(rs));
    }
  }

  /** Two sequences of runs at the same place agree as far as both go. */
  lemma {:induction false} RunsAgree(s: Source, pos: nat, clens: Lengths, rs: seq<Run>, rs': seq<Run>, k: nat)
    requires RunsAt(s, pos, clens, rs) && RunsAt(s, pos, clens, rs')
    requires k <= |rs| && k <= |rs'|
    ensures rs[..k] == rs'[..k]
  {
    hide At, EncodeRuns, RunAt, RunOk, Fits;
    if k > 0 {
      RunsAgree(s, pos, clens, rs, rs', k - 1);
      RunInRuns(s, pos, clens, rs, k - 1);
      RunInRuns(s, pos, clens, rs', k - 1);
      RunUnique(s, pos + RunsEnd(clens, rs, k - 1), clens, rs[k - 1], rs'[k - 1]);
      assert rs[..k] == rs[..k - 1] + [rs[k - 1]];
      assert rs'[..k] == rs'[..k - 1] + [rs'[k - 1]];
    }
  }

  /** The encoding of runs splits where the runs do. */
  lemma EncodeNone(clens: Lengths, rs: seq<Run>)
    requires |rs| == 0
    ensures RunsEncodable(clens, rs) && EncodeRuns(clens, rs) == []
  {
  }

  lemma {:induction false} RunsSplit(clens: Lengths, a: seq<Run>, b: seq<Run>)
    requires RunsEncodable(clens, a) && RunsEncodable(clens, b)
    ensures RunsEncodable(clens, a + b)
    ensures EncodeRuns(clens, a + b) == EncodeRuns(clens, a) + EncodeRuns(clens, b)
    decreases |b|
  {
    hide EncodeRun, Fits, EncodeRuns;
    if |b| == 0 {
      assert a + b == a;
      EncodeNone(clens, b);
    } else {
      RunsSplit(clens, a, Front(b));
      assert a + b == (a + Front(b)) + [Last(b)] && b == Front(b) + [Last(b)];
      EncodeRunsStep(clens, a + Front(b), Last(b));
      EncodeRunsStep(clens, Front(b), Last(b));
    }
  }

  // ---------------------------------------------------------------------------
  // Expanding runs

  function TotalLength(rs: seq<Run>): nat {
    if |rs| == 0 then 0 else TotalLength(Front(rs)) + RunLength(Last(rs))
  }

  lemma {:induction false} ExpandedLength(lens: Lengths, rs: seq<Run>)
    requires Legal(lens, rs)
    ensures |ExpandRuns(lens, rs)| == |lens| + TotalLength(rs)
  {
    if |rs| > 0 {
      ExpandedLength(lens, Front(rs));
    }
  }

  lemma {:induction false} TotalSplit(a: seq<Run>, b: seq<Run>)
    ensures TotalLength(a + b) == TotalLength(a) + TotalLength(b)
    ensures TotalLength(b) >= |b|
    decreases |b|
  {
    if |b| == 0 {
      assert a + b == a;
    } else {
      TotalSplit(a, Front(b));
      assert Front(a + b) == a + Front(b) && Last(a + b) == Last(b);
    }
  }

  /** Expanding two parts one after the other is expanding the whole. */
  lemma {:induction false} ExpandSplit(lens: Lengths, a: seq<Run>, b: seq<Run>)
    requires Legal(lens, a + b)
    ensures Legal(lens, a) && Legal(ExpandRuns(lens, a), b)
    ensures ExpandRuns(lens, a + b) == ExpandRuns(ExpandRuns(lens, a), b)
    decreases |b|
  {
    LegalSplit(lens, a, b);
    if |b| == 0 {
      assert a + b == a;
    } else {
      assert Front(a + b) == a + Front(b) && Last(a + b) == Last(b);
      ExpandSplit(lens, a, Front(b));
    }
  }

  lemma LegalSplit(lens: Lengths, a: seq<Run>, b: seq<Run>)
    requires Legal(lens, a + b)
    ensures Legal(lens, a) && Legal(ExpandRuns(lens, a), b)
  {
    hide RunOk;
    forall i | 0 <= i < |a| ensures RunOk(a[i]) {
      assert (a + b)[i] == a[i];
    }
    forall i | 0 <= i < |b| ensures RunOk(b[i]) {
      assert (a + b)[|a| + i] == b[i];
    }
  }

  /** Lengths that lie before the one a run may repeat do not matter. */
  lemma {:induction false} ExpandAfter(before: Lengths, lens: Lengths, rs: seq<Run>)
    requires Legal(lens, rs)
    ensures Legal(before + lens, rs)
    ensures ExpandRuns(before + lens, rs) == before + ExpandRuns(lens, rs)
  {
    if |rs| > 0 {
      ExpandAfter(before, lens, Front(rs));
    }
  }

  // ---------------------------------------------------------------------------
  // The state of a reader of runs

  /** From start to pos the stream holds the runs done, which extended lens0 to lens. */
  ghost predicate RunProgress(s: Source, start: nat, clens: Lengths, lens0: Lengths, done: seq<Run>, pos: nat,
                              lens: Lengths) {
    && RunsAt(s, start, clens, done)
    && pos == start + |EncodeRuns(clens, done)|
    && Legal(lens0, done)
    && lens == ExpandRuns(lens0, done)
  }

  lemma RunProgressStep(s: Source, start: nat, clens: Lengths, lens0: Lengths, done: seq<Run>, pos: nat, lens: Lengths,
                        r: Run)
    requires RunProgress(s, start, clens, lens0, done, pos, lens)
    requires RunAt(s, pos, clens, r) && (r.Repeat? ==> |lens| > 0)
    ensures RunOk(r) && Fits(clens, RunSymbol(r))
    ensures RunProgress(s, start, clens, lens0, done + [r], pos + |EncodeRun(clens, r)|, ExpandRun(lens, r))
    ensures |EncodeRun(clens, r)| == clens[RunSymbol(r)] + RunBits(r)
  {
    EncodeRunLength(s, pos, clens, r);
    hide At, EncodeRun, ExpandRun, RunAt, Codeword, CodeOf, Fits;
    FrontLast(done, r);
    EncodeRunsStep(clens, done, r);
    LegalStep(lens0, done, r);
    hide EncodeRuns, ExpandRuns;
    AtConcat(s, start, EncodeRuns(clens, done), EncodeRun(clens, r));
    RunAtEncoding(s, pos, clens, r);
  }

  lemma FrontLast(done: seq<Run>, r: Run)
    ensures Front(done + [r]) == done && Last(done + [r]) == r
  {
  }

  lemma EncodeRunsStep(clens: Lengths, done: seq<Run>, r: Run)
    requires RunsEncodable(clens, done) && Fits(clens, RunSymbol(r))
    ensures RunsEncodable(clens, done + [r])
    ensures EncodeRuns(clens, done + [r]) == EncodeRuns(clens, done) + EncodeRun(clens, r)
  {
    hide EncodeRun, Fits;
    FrontLast(done, r);
  }

  lemma LegalStep(lens0: Lengths, done: seq<Run>, r: Run)
    requires Legal(lens0, done) && RunOk(r) && (r.Repeat? ==> |ExpandRuns(lens0, done)| > 0)
    ensures Legal(lens0, done + [r])
    ensures ExpandRuns(lens0, done + [r]) == ExpandRun(ExpandRuns(lens0, done), r)
  {
    hide ExpandRun, RunOk;
    FrontLast(done, r);
    if |done| > 0 {
      assert (done + [r])[0] == done[0];
    }
  }

  lemma EncodeRunLength(s: Source, pos: nat, clens: Lengths, r: Run)
    requires RunAt(s, pos, clens, r)
    ensures RunOk(r) && Fits(clens, RunSymbol(r)) && |EncodeRun(clens, r)| == clens[RunSymbol(r)] + RunBits(r)
  {
  }

  /** Runs that go beyond what has been read continue at the reader's position. */
  lemma RunNext(s: Source, start: nat, clens: Lengths, lens0: Lengths, done: seq<Run>, pos: nat, lens: Lengths,
                rs: seq<Run>)
    requires RunProgress(s, start, clens, lens0, done, pos, lens)
    requires RunsAt(s, start, clens, rs) && done <= rs && |done| < |rs|
    ensures RunAt(s, pos, clens, rs[|done|])
  {
    hide At, EncodeRuns, EncodeRun, RunAt;
    assert rs[..|done|] == done;
    RunInRuns(s, start, clens, rs, |done|);
  }

  /** How far the C code lets a run write into a table; code 18 has a guard of its own. */
  function Guard(r: Run, limit: nat): nat {
    if r.LongZeros? then limit + 10 else limit
  }

  function Min(a: nat, b: nat): nat {
    if a < b then a else b
  }

  /** Runs that supply end lengths after lens0 without being cut off by the end of the table. */
  ghost predicate Supply(s: Source, start: nat, clens: Lengths, lens0: Lengths, end: nat, limit: nat, size: nat,
                         rs: seq<Run>) {
    && RunsAt(s, start, clens, rs) && Legal(lens0, rs)
    && |lens0| + TotalLength(rs) >= end
    && forall n :: 0 <= n < |rs| && |lens0| + TotalLength(rs[..n]) < end ==>
         Min(|lens0| + TotalLength(rs[..n]) + RunLength(rs[n]), Guard(rs[n], limit)) <= size
  }

  /** No runs supply the lengths. */
  ghost predicate NoSupply(s: Source, start: nat, clens: Lengths, lens0: Lengths, end: nat, limit: nat, size: nat) {
    forall rs :: !Supply(s, start, clens, lens0, end, limit, size, rs)
  }

  /** A reader that has fewer than end lengths finds the next run of a supply, and room for it. */
  lemma SupplyNext(s: Source, start: nat, clens: Lengths, lens0: Lengths, end: nat, limit: nat, size: nat,
                   done: seq<Run>, pos: nat, lens: Lengths, rs: seq<Run>)
    requires RunProgress(s, start, clens, lens0, done, pos, lens) && |lens| < end
    requires Supply(s, start, clens, lens0, end, limit, size, rs) && done <= rs
    ensures |done| < |rs| && RunAt(s, pos, clens, rs[|done|])
    ensures !(rs[|done|].Repeat? && |lens| == 0)
    ensures Min(|lens| + RunLength(rs[|done|]), Guard(rs[|done|], limit)) <= size
  {
    hide At, RunsAt, RunAt, RunOk, ExpandRun;
    ExpandedLength(lens0, done);
    assert rs[..|done|] == done;
    assert |done| == |rs| ==> done == rs;
    RunNext(s, start, clens, lens0, done, pos, lens, rs);
  }

  // ---------------------------------------------------------------------------
  // The header

  /** The place of symbol j of the code length code in CLEN_ORDER. */
  const CLEN_PLACE: seq<nat> := [3, 17, 15, 13, 11, 9, 7, 5, 4, 6, 8, 10, 12, 14, 16, 18, 0, 1, 2]

  lemma ClenOrder()
    ensures |CLEN_ORDER| == |CLEN_PLACE| == CLEN_TSIZE
    ensures forall k :: 0 <= k < CLEN_TSIZE ==> CLEN_ORDER[k] < CLEN_TSIZE && CLEN_PLACE[CLEN_ORDER[k]] == k
    ensures forall j :: 0 <= j < CLEN_TSIZE ==> CLEN_PLACE[j] < CLEN_TSIZE && CLEN_ORDER[CLEN_PLACE[j]] == j
  {
    forall k | 0 <= k < CLEN_TSIZE
      ensures CLEN_ORDER[k] < CLEN_TSIZE && CLEN_PLACE[CLEN_ORDER[k]] == k
      ensures CLEN_PLACE[k] < CLEN_TSIZE && CLEN_ORDER[CLEN_PLACE[k]] == k
    {
      ClenPlace(k);
    }
  }

  lemma ClenPlace(k: nat)
    requires k < CLEN_TSIZE
    ensures CLEN_ORDER[k] < CLEN_TSIZE && CLEN_PLACE[CLEN_ORDER[k]] == k
    ensures CLEN_PLACE[k] < CLEN_TSIZE && CLEN_ORDER[CLEN_PLACE[k]] == k
  {
    match k
    case 0 => case 1 => case 2 => case 3 => case 4 => case 5 => case 6 => case 7 => case 8 => case 9 =>
    case 10 => case 11 => case 12 => case 13 => case 14 => case 15 => case 16 => case 17 => case _ =>
  }

  /** The fields of the header: raw holds the 4 + hclen lengths that are sent for the code length code. */
  datatype Header = Header(hlit: nat, hdist: nat, hclen: nat, raw: seq<nat>, runs: seq<Run>)

  predicate RawOk(raw: seq<nat>) {
    |raw| <= CLEN_TSIZE && forall i :: 0 <= i < |raw| ==> raw[i] < 8
  }

  /** The lengths of the code length code; lengths that are not sent are 0. */
  function CodeLengths(raw: seq<nat>): (clens: Lengths)
    requires RawOk(raw)
    ensures |clens| == CLEN_TSIZE
  {
    seq(CLEN_TSIZE, j requires 0 <= j < CLEN_TSIZE => if CLEN_PLACE[j] < |raw| then raw[CLEN_PLACE[j]] else 0)
  }

  /** The k-th length that is sent, 0 if so many are not sent. */
  function Sent(raw: seq<nat>, k: nat): nat {
    if k < |raw| then raw[k] else 0
  }

  /** The sending order of section 3.2.7: 16, 17, 18, 0, 8, 7, 9, 6, 10, 5, 11, 4, 12, 3, 13, 2, 14, 1, 15. */
  lemma SendingOrder(raw: seq<nat>)
    requires RawOk(raw)
    ensures CodeLengths(raw) ==
            [Sent(raw, 3), Sent(raw, 17), Sent(raw, 15), Sent(raw, 13), Sent(raw, 11), Sent(raw, 9), Sent(raw, 7),
             Sent(raw, 5), Sent(raw, 4), Sent(raw, 6), Sent(raw, 8), Sent(raw, 10), Sent(raw, 12), Sent(raw, 14),
             Sent(raw, 16), Sent(raw, 18), Sent(raw, 0), Sent(raw, 1), Sent(raw, 2)]
  {
  }

  /** What each code length symbol stands for, with its extra bits, and how far the C code lets it
      write into a table of 257 + hlit lengths. */
  lemma RunMeaning(lens: Lengths, r: Run, hlit: nat)
    requires RunOk(r) && (r.Repeat? ==> |lens| > 0)
    ensures RunSymbol(r) < 16 ==>
              RunBits(r) == 0 && ExpandRun(lens, r) == lens + [RunSymbol(r)]
    ensures RunSymbol(r) == 16 ==>
              && RunBits(r) == 2 && RunExtra(r) < 4
              && ExpandRun(lens, r) == lens + Fill(lens[|lens| - 1], 3 + RunExtra(r))
    ensures RunSymbol(r) == 17 ==>
              RunBits(r) == 3 && RunExtra(r) < 8 && ExpandRun(lens, r) == lens + Fill(0, 3 + RunExtra(r))
    ensures RunSymbol(r) == 18 ==>
              RunBits(r) == 7 && RunExtra(r) < 128 && ExpandRun(lens, r) == lens + Fill(0, 11 + RunExtra(r))
    ensures RunSymbol(r) <= 18
    ensures Guard(r, 257 + hlit) == if RunSymbol(r) == 18 then 267 + hlit else 257 + hlit
  {
    assert Pow2(2) == 4 && Pow2(3) == 8 && Pow2(4) == 16 && Pow2(7) == 128;
  }

  function LitCount(h: Header): nat {
    257 + h.hlit
  }

  function DistCount(h: Header): nat {
    1 + h.hdist
  }

  /** A header as section 3.2.7 allows it; the distance codes 30 and 31 must not be used. */
  predicate HeaderOk(h: Header) {
    && h.hlit < 32 && h.hdist < 32 && h.hclen < 16
    && RawOk(h.raw) && |h.raw| == 4 + h.hclen
    && RunsEncodable(CodeLengths(h.raw), h.runs)
    && Legal([], h.runs)
    && |ExpandRuns([], h.runs)| == LitCount(h) + DistCount(h)
    && forall i :: LitCount(h) + HDIST_TSIZE <= i < LitCount(h) + DistCount(h) ==> ExpandRuns([], h.runs)[i] == 0
  }

  /** The first size lengths; lengths that are missing are 0. */
  function Padded(lens: Lengths, size: nat): (r: Lengths)
    ensures |r| == size
  {
    seq(size, i requires 0 <= i => if i < |lens| then lens[i] else 0)
  }

  /** The lengths of the literal/length code. */
  function LitLengths(h: Header): (r: Lengths)
    requires HeaderOk(h)
    ensures |r| == HLIT_TSIZE
  {
    Padded(ExpandRuns([], h.runs)[..LitCount(h)], HLIT_TSIZE)
  }

  /** The lengths of the distance code: what follows in the same sequence. */
  function DistLengths(h: Header): (r: Lengths)
    requires HeaderOk(h)
    ensures |r| == HDIST_TSIZE
  {
    Padded(ExpandRuns([], h.runs)[LitCount(h)..], HDIST_TSIZE)
  }

  function EncodeRaw(raw: seq<nat>): (bits: seq<bit>)
    ensures |bits| == 3 * |raw|
  {
    if |raw| == 0 then [] else EncodeRaw(Front(raw)) + Lsb(Last(raw), 3)
  }

  function EncodeHeader(h: Header): seq<bit>
    requires HeaderOk(h)
  {
    Lsb(h.hlit, 5) + (Lsb(h.hdist, 5) + (Lsb(h.hclen, 4) +
    (EncodeRaw(h.raw) + EncodeRuns(CodeLengths(h.raw), h.runs))))
  }

  ghost predicate HeaderAt(s: Source, pos: nat, h: Header) {
    HeaderOk(h) && At(s, pos, EncodeHeader(h))
  }

  lemma {:induction false} RawFields(s: Source, pos: nat, raw: seq<nat>, i: nat)
    requires RawOk(raw) && At(s, pos, EncodeRaw(raw)) && i < |raw|
    ensures Field(s, pos + 3 * i, 3) == raw[i]
  {
    hide At, Lsb, Field;
    AtConcat(s, pos, EncodeRaw(Front(raw)), Lsb(Last(raw), 3));
    if i < |raw| - 1 {
      RawFields(s, pos, Front(raw), i);
    } else {
      assert Pow2(3) == 8;
      AtLsb(s, pos + 3 * i, raw[i], 3);
    }
  }

  /** The header as the fields and runs that a reader meets. */
  lemma HeaderParts(s: Source, pos: nat, h: Header)
    requires HeaderAt(s, pos, h)
    ensures Field(s, pos, 5) == h.hlit
    ensures Field(s, pos + 5, 5) == h.hdist
    ensures Field(s, pos + 10, 4) == h.hclen
    ensures forall i :: 0 <= i < |h.raw| ==> Field(s, pos + 14 + 3 * i, 3) == h.raw[i]
    ensures RunsAt(s, pos + 14 + 3 * |h.raw|, CodeLengths(h.raw), h.runs)
  {
    hide At, Lsb, Field, EncodeRaw, EncodeRuns, ExpandRuns, CodeLengths, RunOk, Fits;
    var d := EncodeRaw(h.raw);
    var e := EncodeRuns(CodeLengths(h.raw), h.runs);
    AtConcat(s, pos, Lsb(h.hlit, 5), Lsb(h.hdist, 5) + (Lsb(h.hclen, 4) + (d + e)));
    AtConcat(s, pos + 5, Lsb(h.hdist, 5), Lsb(h.hclen, 4) + (d + e));
    AtConcat(s, pos + 10, Lsb(h.hclen, 4), d + e);
    AtConcat(s, pos + 14, d, e);
    assert Pow2(4) == 16 && Pow2(5) == 32;
    AtLsb(s, pos, h.hlit, 5);
    AtLsb(s, pos + 5, h.hdist, 5);
    AtLsb(s, pos + 10, h.hclen, 4);
    forall i | 0 <= i < |h.raw| ensures Field(s, pos + 14 + 3 * i, 3) == h.raw[i] {
      RawFields(s, pos + 14, h.raw, i);
    }
  }

  /** What the fields of a header mean: 257 lengths and more for the literals, 1 and more for the
      distances, and 4 and more for the code length code; the two codes are one sequence of lengths. */
  lemma HeaderMeaning(s: Source, pos: nat, h: Header)
    requires HeaderAt(s, pos, h)
    ensures |h.raw| == 4 + Field(s, pos + 10, 4)
    ensures var n, m, lens := 257 + Field(s, pos, 5), 1 + Field(s, pos + 5, 5), ExpandRuns([], h.runs);
            && |lens| == n + m
            && (forall i :: 0 <= i < 288 ==> LitLengths(h)[i] == if i < n then lens[i] else 0)
            && (forall i :: 0 <= i < 30 ==> DistLengths(h)[i] == if i < m then lens[n + i] else 0)
  {
    hide At, EncodeHeader, RunsAt, ExpandRuns, Field;
    HeaderParts(s, pos, h);
  }

  /** Run n is a long run of zeros that crosses from the first end lengths into those that
      follow, or a repetition that starts there. */
  predicate Breaks(rs: seq<Run>, n: nat, end: nat)
    requires n < |rs|
  {
    var a, b := TotalLength(rs[..n]), TotalLength(rs[..n + 1]);
    (rs[n].LongZeros? && a < end < b) || (rs[n].Repeat? && a == end)
  }

  /** No long run of zeros crosses from the literal into the distance lengths, and the distance
      lengths do not open with a repetition. */
  predicate Safe(h: Header) {
    forall n :: 0 <= n < |h.runs| ==> !Breaks(h.runs, n, LitCount(h))
  }

  // ---------------------------------------------------------------------------
  // What the C code makes of a header

  /** What the loop over a compressed table has read: runs, the position behind them, and the lengths
      they stand for.  It has stored that many of these, and what remains of the last run is
      remainder times remVal. */
  datatype ReadTable = ReadTable(runs: seq<Run>, pos: nat, lens: Lengths, stored: nat, remainder: nat, remVal: nat)

  /** The reader of the first table has stopped: it has stored at least end lengths, and carries the
      remainder of its last run over to the second table. */
  ghost predicate FirstTable(s: Source, p: nat, clens: Lengths, end: nat, t: ReadTable) {
    && RunProgress(s, p, clens, [], t.runs, t.pos, t.lens)
    && |t.runs| > 0 && |ExpandRuns([], Front(t.runs))| < end <= t.stored
    && t.stored == Min(|t.lens|, Guard(Last(t.runs), end)) && t.remainder == |t.lens| - t.stored
    && t.remVal <= MAXBITS && (t.remainder > 0 ==> t.remVal == Last(t.lens))
  }

  /** The reader of the second table has stopped, having started with the lengths carried. */
  ghost predicate SecondTable(s: Source, p: nat, clens: Lengths, carried: Lengths, end: nat, t: ReadTable) {
    && RunProgress(s, p, clens, carried, t.runs, t.pos, t.lens)
    && |t.lens| >= end
    && (|t.runs| > 0 ==> |ExpandRuns(carried, Front(t.runs))| < end)
  }

  /** What is carried over is less than one run. */
  lemma RemainderSmall(s: Source, p: nat, clens: Lengths, end: nat, t: ReadTable)
    requires FirstTable(s, p, clens, end, t)
    ensures t.remainder < 138
  {
    assert RunOk(Last(t.runs));
    assert Pow2(2) == 4 && Pow2(3) == 8 && Pow2(4) == 16 && Pow2(7) == 128;
  }

  lemma PrefixTotal(rs: seq<Run>, n: nat)
    requires n <= |rs|
    ensures TotalLength(rs[..n]) + (|rs| - n) <= TotalLength(rs)
  {
    assert rs[..n] + rs[n..] == rs;
    TotalSplit(rs[..n], rs[n..]);
  }

  /** The first table is filled from the first runs of the header. */
  lemma FirstRuns(s: Source, p: nat, h: Header, t: ReadTable)
    requires HeaderOk(h) && RunsAt(s, p, CodeLengths(h.raw), h.runs)
    requires FirstTable(s, p, CodeLengths(h.raw), LitCount(h), t)
    ensures t.runs <= h.runs
    ensures TotalLength(Front(t.runs)) < LitCount(h) <= TotalLength(t.runs) == |t.lens|
    ensures Legal(t.lens, h.runs[|t.runs|..])
    ensures ExpandRuns(t.lens, h.runs[|t.runs|..]) == ExpandRuns([], h.runs)
    ensures RunsAt(s, t.pos, CodeLengths(h.raw), h.runs[|t.runs|..])
    ensures p + |EncodeRuns(CodeLengths(h.raw), h.runs)| == t.pos + |EncodeRuns(CodeLengths(h.raw), h.runs[|t.runs|..])|
  {
    hide At, EncodeRuns, CodeLengths, RunOk, Fits, ExpandRuns, TotalLength, RunsAt;
    var clens := CodeLengths(h.raw);
    HeaderRuns(h);
    FirstRunsPrefix(s, p, clens, h.runs, LitCount(h), t);
    var rest := h.runs[|t.runs|..];
    assert h.runs == t.runs + rest;
    ExpandSplit([], t.runs, rest);
    RestAt(s, p, clens, t.runs, rest);
  }

  lemma HeaderRuns(h: Header)
    requires HeaderOk(h)
    ensures Legal([], h.runs) && RunsEncodable(CodeLengths(h.raw), h.runs)
    ensures TotalLength(h.runs) == |ExpandRuns([], h.runs)| == LitCount(h) + DistCount(h)
    ensures 0 < DistCount(h) <= 32 && LitCount(h) <= HLIT_TSIZE
  {
    ExpandedLength([], h.runs);
  }

  lemma FirstRunsPrefix(s: Source, p: nat, clens: Lengths, runs: seq<Run>, end: nat, t: ReadTable)
    requires RunsAt(s, p, clens, runs) && Legal([], runs) && TotalLength(runs) >= end
    requires FirstTable(s, p, clens, end, t)
    ensures t.runs <= runs && TotalLength(Front(t.runs)) < end <= TotalLength(t.runs) == |t.lens|
  {
    hide At, EncodeRuns, RunOk, Fits, ExpandRuns, TotalLength;
    ExpandedLength([], t.runs);
    ExpandedLength([], Front(t.runs));
    if |runs| < |t.runs| {
      assert Front(t.runs)[..|runs|] == t.runs[..|runs|] && runs[..|runs|] == runs;
      PrefixTotal(Front(t.runs), |runs|);
      RunsAgree(s, p, clens, t.runs, runs, |runs|);
    } else {
      RunsAgree(s, p, clens, t.runs, runs, |t.runs|);
      assert t.runs[..|t.runs|] == t.runs;
    }
  }

  lemma RestAt(s: Source, p: nat, clens: Lengths, a: seq<Run>, b: seq<Run>)
    requires RunsAt(s, p, clens, a + b) && RunsEncodable(clens, a)
    ensures RunsAt(s, p + |EncodeRuns(clens, a)|, clens, b)
    ensures |EncodeRuns(clens, a + b)| == |EncodeRuns(clens, a)| + |EncodeRuns(clens, b)|
  {
    hide At, EncodeRuns, RunOk, Fits;
    forall i | 0 <= i < |b| ensures RunOk(b[i]) && Fits(clens, RunSymbol(b[i])) {
      assert (a + b)[|a| + i] == b[i];
    }
    RunsSplit(clens, a, b);
    AtConcat(s, p, EncodeRuns(clens, a), EncodeRuns(clens, b));
  }

  /** The readers meet no obstacle in the runs of a safe header: the first table. */
  lemma FirstSupply(s: Source, p: nat, h: Header)
    requires HeaderOk(h) && Safe(h) && RunsAt(s, p, CodeLengths(h.raw), h.runs)
    ensures Supply(s, p, CodeLengths(h.raw), [], LitCount(h), LitCount(h), HLIT_TSIZE, h.runs)
  {
    hide At, RunsAt, CodeLengths, ExpandRuns, RunOk, Fits;
    ExpandedLength([], h.runs);
    forall n | 0 <= n < |h.runs| && TotalLength(h.runs[..n]) < LitCount(h)
      ensures Min(TotalLength(h.runs[..n]) + RunLength(h.runs[n]), Guard(h.runs[n], LitCount(h))) <= HLIT_TSIZE
    {
      assert !Breaks(h.runs, n, LitCount(h));
      assert Front(h.runs[..n + 1]) == h.runs[..n] && Last(h.runs[..n + 1]) == h.runs[n];
    }
  }

  /** A safe header carries exactly the lengths that belong to the second table. */
  lemma SafeCarry(s: Source, p: nat, h: Header, t: ReadTable)
    requires HeaderOk(h) && Safe(h) && RunsAt(s, p, CodeLengths(h.raw), h.runs)
    requires FirstTable(s, p, CodeLengths(h.raw), LitCount(h), t)
    ensures t.stored == LitCount(h) && t.lens[t.stored..] == Fill(Last(t.lens), t.remainder)
    ensures t.runs <= h.runs && Legal(t.lens[t.stored..], h.runs[|t.runs|..])
  {
    hide At, EncodeRuns, CodeLengths, RunOk, Fits, HeaderOk, ExpandRuns, TotalLength, RunsAt;
    FirstRuns(s, p, h, t);
    SafeStop(h, t.runs);
    LastRun(t.runs, t.lens);
    assert t.lens[t.stored..] == Fill(Last(t.lens), t.remainder);
  }

  lemma SafeStop(h: Header, rs: seq<Run>)
    requires HeaderOk(h) && Safe(h) && rs <= h.runs && |rs| > 0
    requires TotalLength(Front(rs)) < LitCount(h) <= TotalLength(rs)
    ensures Last(rs).LongZeros? ==> TotalLength(rs) == LitCount(h)
    ensures |rs| < |h.runs| && TotalLength(rs) == LitCount(h) ==> !h.runs[|rs|].Repeat?
  {
    hide HeaderOk, TotalLength;
    assert h.runs[..|rs|] == rs && h.runs[..|rs| - 1] == Front(rs);
    assert !Breaks(h.runs, |rs| - 1, LitCount(h));
    if |rs| < |h.runs| {
      assert !Breaks(h.runs, |rs|, LitCount(h));
    }
  }

  /** The lengths of the last run are all the same. */
  lemma LastRun(rs: seq<Run>, lens: Lengths)
    requires |rs| > 0 && Legal([], rs) && lens == ExpandRuns([], rs)
    ensures Legal([], Front(rs))
    ensures forall i :: |ExpandRuns([], Front(rs))| <= i < |lens| ==> lens[i] == Last(lens)
  {
    hide RunOk;
    var front := ExpandRuns([], Front(rs));
    assert lens == front + Fill(RunValue(front, Last(rs)), RunLength(Last(rs)));
  }

  /** ... and so the second table. */
  lemma SecondSupply(s: Source, p: nat, h: Header, t: ReadTable)
    requires HeaderOk(h) && Safe(h) && RunsAt(s, p, CodeLengths(h.raw), h.runs)
    requires FirstTable(s, p, CodeLengths(h.raw), LitCount(h), t)
    ensures t.runs <= h.runs && t.stored <= |t.lens|
    ensures Supply(s, t.pos, CodeLengths(h.raw), t.lens[t.stored..], DistCount(h), LitCount(h), HLIT_TSIZE,
                   h.runs[|t.runs|..])
  {
    hide At, RunsAt, EncodeRuns, CodeLengths, RunOk, Fits, Safe, Guard, Min, Legal, ExpandRuns, TotalLength, RunLength,
         RunProgress, FirstTable, HeaderOk;
    FirstRuns(s, p, h, t);
    SafeCarry(s, p, h, t);
    RestFits(h, t.runs, t.lens, t.stored);
    var rest := h.runs[|t.runs|..];
    forall n | 0 <= n < |rest|
      ensures Min(|t.lens[t.stored..]| + TotalLength(rest[..n]) + RunLength(rest[n]),
                  Guard(rest[n], LitCount(h))) <= HLIT_TSIZE
    {
      MinSmall(|t.lens[t.stored..]| + TotalLength(rest[..n]) + RunLength(rest[n]), Guard(rest[n], LitCount(h)),
               HLIT_TSIZE);
    }
  }

  lemma MinSmall(a: nat, b: nat, c: nat)
    requires a <= c
    ensures Min(a, b) <= c
  {
  }

  /** What is carried over and what follows make up the distance lengths. */
  lemma RestFits(h: Header, rs: seq<Run>, lens: Lengths, j: nat)
    requires HeaderOk(h) && rs <= h.runs && |lens| == TotalLength(rs) && j == LitCount(h) <= |lens|
    ensures |lens[j..]| + TotalLength(h.runs[|rs|..]) == DistCount(h) <= HLIT_TSIZE
    ensures forall n :: 0 <= n < |h.runs| - |rs| ==>
              |lens[j..]| + TotalLength(h.runs[|rs|..][..n]) + RunLength(h.runs[|rs|..][n]) <= DistCount(h)
  {
    hide CodeLengths, RunOk, Fits, RunLength, TotalLength, HeaderOk, ExpandRuns;
    var rest := h.runs[|rs|..];
    HeaderTotal(h);
    TotalSplit(rs, rest);
    assert h.runs == rs + rest;
    forall n | 0 <= n < |rest| ensures |lens[j..]| + TotalLength(rest[..n]) + RunLength(rest[n]) <= DistCount(h) {
      TotalStep(rest, n);
    }
  }

  lemma TotalStep(rs: seq<Run>, n: nat)
    requires n < |rs|
    ensures TotalLength(rs[..n]) + RunLength(rs[n]) <= TotalLength(rs)
  {
    hide RunLength;
    PrefixTotal(rs, n + 1);
    assert Front(rs[..n + 1]) == rs[..n] && Last(rs[..n + 1]) == rs[n];
  }

  lemma HeaderTotal(h: Header)
    requires HeaderOk(h)
    ensures TotalLength(h.runs) == LitCount(h) + DistCount(h) && DistCount(h) <= HLIT_TSIZE
  {
    hide CodeLengths, RunOk, Fits;
    ExpandedLength([], h.runs);
  }

  /** The second table is filled from the remaining runs of a safe header, and from all of them. */
  lemma SafeResult(s: Source, p: nat, h: Header, t: ReadTable, t2: ReadTable)
    requires HeaderOk(h) && Safe(h) && RunsAt(s, p, CodeLengths(h.raw), h.runs)
    requires FirstTable(s, p, CodeLengths(h.raw), LitCount(h), t)
    requires SecondTable(s, t.pos, CodeLengths(h.raw), t.lens[t.stored..], DistCount(h), t2)
    ensures t.lens[..t.stored] == ExpandRuns([], h.runs)[..LitCount(h)]
    ensures t2.lens == ExpandRuns([], h.runs)[LitCount(h)..]
    ensures t2.pos == p + |EncodeRuns(CodeLengths(h.raw), h.runs)|
  {
    hide At, RunsAt, EncodeRuns, CodeLengths, RunOk, Fits, Safe, ExpandRuns, TotalLength, SecondTable, RunProgress;
    FirstRuns(s, p, h, t);
    SafeCarry(s, p, h, t);
    HeaderTotal(h);
    var rest, carried := h.runs[|t.runs|..], t.lens[t.stored..];
    assert h.runs == t.runs + rest;
    TotalSplit(t.runs, rest);
    SameRuns(s, t.pos, CodeLengths(h.raw), carried, DistCount(h), t2, rest);
    Joined(t.lens, t.stored, rest);
  }

  /** Runs that follow some lengths leave the first of them alone. */
  lemma Joined(lens: Lengths, k: nat, rest: seq<Run>)
    requires k <= |lens| && Legal(lens[k..], rest)
    ensures Legal(lens, rest)
    ensures ExpandRuns(lens, rest)[..k] == lens[..k] && ExpandRuns(lens, rest)[k..] == ExpandRuns(lens[k..], rest)
  {
    hide ExpandRuns, RunOk;
    assert lens == lens[..k] + lens[k..];
    ExpandAfter(lens[..k], lens[k..], rest);
  }

  /** A reader that stops at end has read exactly the runs that supply exactly end lengths. */
  lemma SameRuns(s: Source, p: nat, clens: Lengths, carried: Lengths, end: nat, t: ReadTable, rest: seq<Run>)
    requires SecondTable(s, p, clens, carried, end, t)
    requires RunsAt(s, p, clens, rest) && Legal(carried, rest) && |carried| + TotalLength(rest) == end
    ensures t.runs == rest && t.lens == ExpandRuns(carried, rest)
    ensures RunsEncodable(clens, rest) && t.pos == p + |EncodeRuns(clens, rest)|
  {
    hide At, EncodeRuns, RunOk, Fits;
    ExpandedLength(carried, t.runs);
    if |t.runs| < |rest| {
      RunsAgree(s, p, clens, t.runs, rest, |t.runs|);
      assert t.runs[..|t.runs|] == t.runs;
      PrefixTotal(rest, |t.runs|);
    } else {
      RunsAgree(s, p, clens, t.runs, rest, |rest|);
      assert rest[..|rest|] == rest;
      if |rest| < |t.runs| {
        ExpandedLength(carried, Front(t.runs));
        assert Front(t.runs)[..|rest|] == rest;
        PrefixTotal(Front(t.runs), |rest|);
      } else {
        assert t.runs[..|t.runs|] == t.runs;
      }
    }
  }

  /** Where a header is not safe, the C code does not stop at its end: it either refuses the runs
      that open the second table or reads on into the compressed data. */
  lemma UnsafeResult(s: Source, p: nat, h: Header, t: ReadTable, carried: Lengths, t2: ReadTable)
    requires HeaderOk(h) && !Safe(h) && RunsAt(s, p, CodeLengths(h.raw), h.runs)
    requires FirstTable(s, p, CodeLengths(h.raw), LitCount(h), t)
    requires |carried| == t.remainder
    requires SecondTable(s, t.pos, CodeLengths(h.raw), carried, DistCount(h), t2)
    ensures t2.pos > p + |EncodeRuns(CodeLengths(h.raw), h.runs)|
  {
    hide At, RunsAt, EncodeRuns, CodeLengths, RunOk, Fits, ExpandRuns, Safe, FirstTable, SecondTable, TotalLength;
    FirstRuns(s, p, h, t);
    HeaderRuns(h);
    UnsafeRest(s, p, h, t);
    var clens, rest := CodeLengths(h.raw), h.runs[|t.runs|..];
    if t.remainder == 0 {
      assert carried == [];
      NoRepeatFirst(s, t.pos, clens, DistCount(h), t2, rest);
    }
    RunsPast(s, t.pos, clens, carried, DistCount(h), t2, rest);
  }

  /** What follows the first table of a header that is not safe: a repetition of nothing, or too few
      lengths for the second table. */
  lemma UnsafeRest(s: Source, p: nat, h: Header, t: ReadTable)
    requires HeaderOk(h) && !Safe(h) && RunsAt(s, p, CodeLengths(h.raw), h.runs)
    requires FirstTable(s, p, CodeLengths(h.raw), LitCount(h), t)
    ensures t.runs <= h.runs
    ensures var rest := h.runs[|t.runs|..];
            || (t.remainder == 0 && |rest| > 0 && rest[0].Repeat?)
            || t.remainder + TotalLength(rest) < DistCount(h)
  {
    hide At, RunsAt, EncodeRuns, CodeLengths, RunOk, Fits, ExpandRuns, RunProgress, TotalLength, HeaderOk;
    FirstRuns(s, p, h, t);
    HeaderTotal(h);
    HeaderRuns(h);
    var rest := h.runs[|t.runs|..];
    assert h.runs == t.runs + rest;
    TotalSplit(t.runs, rest);
    var n :| 0 <= n < |h.runs| && Breaks(h.runs, n, LitCount(h));
    UnsafePlace(h, t.runs, n);
  }

  /** A reader that starts with nothing has not met a repetition. */
  lemma NoRepeatFirst(s: Source, p: nat, clens: Lengths, end: nat, t: ReadTable, rest: seq<Run>)
    requires SecondTable(s, p, clens, [], end, t) && end > 0 && RunsAt(s, p, clens, rest)
    ensures |rest| > 0 ==> !rest[0].Repeat?
  {
    hide At, EncodeRuns, RunOk, Fits;
    ExpandedLength([], t.runs);
    if |rest| > 0 {
      RunsAgree(s, p, clens, t.runs, rest, 1);
      assert t.runs[0] == t.runs[..1][0] && rest[0] == rest[..1][0];
    }
  }

  /** A reader that needs more lengths than the runs supply reads past them. */
  lemma RunsPast(s: Source, p: nat, clens: Lengths, carried: Lengths, end: nat, t: ReadTable, rest: seq<Run>)
    requires SecondTable(s, p, clens, carried, end, t)
    requires RunsAt(s, p, clens, rest) && |carried| + TotalLength(rest) < end
    ensures RunsEncodable(clens, rest) && t.pos > p + |EncodeRuns(clens, rest)|
  {
    hide At, EncodeRuns, RunOk, Fits, TotalLength, ExpandRuns;
    ExpandedLength(carried, t.runs);
    if |t.runs| <= |rest| {
      RunsAgree(s, p, clens, t.runs, rest, |t.runs|);
      assert t.runs[..|t.runs|] == t.runs;
      PrefixTotal(rest, |t.runs|);
    }
    RunsAgree(s, p, clens, t.runs, rest, |rest|);
    assert rest[..|rest|] == rest;
    LongerRuns(s, p, clens, t.runs, |rest|);
  }

  /** The run that makes a header unsafe is the last one of the first table or the next one. */
  lemma UnsafePlace(h: Header, rs: seq<Run>, n: nat)
    requires rs <= h.runs && |rs| > 0 && n < |h.runs|
    requires TotalLength(Front(rs)) < LitCount(h) <= TotalLength(rs)
    ensures TotalLength(h.runs[..n]) < LitCount(h) < TotalLength(h.runs[..n + 1]) ==>
              n == |rs| - 1 && h.runs[n] == Last(rs) && h.runs[..n + 1] == rs
    ensures TotalLength(h.runs[..n]) == LitCount(h) ==> n == |rs| && h.runs[..n] == rs
  {
    hide TotalLength;
    var k := |rs|;
    assert h.runs[..k] == rs && h.runs[..k - 1] == Front(rs);
    TotalMonotone(h.runs, n, n + 1);
    if n + 1 < k {
      TotalMonotone(h.runs, n + 1, k - 1);
    } else if n > k {
      TotalMonotone(h.runs, k, n);
    }
  }

  lemma TotalMonotone(rs: seq<Run>, m: nat, n: nat)
    requires m <= n <= |rs|
    ensures TotalLength(rs[..m]) + (n - m) <= TotalLength(rs[..n])
  {
    assert rs[..n][..m] == rs[..m];
    PrefixTotal(rs[..n], m);
  }

  lemma LongerRuns(s: Source, p: nat, clens: Lengths, rs: seq<Run>, n: nat)
    requires RunsAt(s, p, clens, rs) && n < |rs|
    ensures |EncodeRuns(clens, rs)| > |EncodeRuns(clens, rs[..n])|
  {
    hide At, EncodeRuns, Fits;
    assert rs == rs[..n] + rs[n..];
    RunsSplit(clens, rs[..n], rs[n..]);
    EncodeSome(clens, rs[n..]);
  }

  lemma EncodeSome(clens: Lengths, rs: seq<Run>)
    requires RunsEncodable(clens, rs) && |rs| > 0
    ensures |EncodeRuns(clens, rs)| > 0
  {
    assert Fits(clens, RunSymbol(Last(rs)));
  }

  /** The fields that have been read determine the header up to its runs. */
  lemma HeaderIs(s: Source, start: nat, h: Header, raw: seq<nat>)
    requires HeaderAt(s, start, h)
    requires |raw| == 4 + Field(s, start + 10, 4) && RawOk(raw)
    requires forall i :: 0 <= i < |raw| ==> raw[i] == Field(s, start + 14 + 3 * i, 3)
    ensures HeaderOk(h) && h.raw == raw && RunsEncodable(CodeLengths(raw), h.runs)
    ensures LitCount(h) == 257 + Field(s, start, 5) && DistCount(h) == 1 + Field(s, start + 5, 5)
    ensures RunsAt(s, start + 14 + 3 * |raw|, CodeLengths(raw), h.runs)
    ensures |EncodeHeader(h)| == 14 + 3 * |raw| + |EncodeRuns(CodeLengths(raw), h.runs)|
  {
    hide At, Field, CodeLengths, EncodeRuns, ExpandRuns, RunOk, Fits, Lsb;
    HeaderParts(s, start, h);
    assert h.raw == raw;
  }

  /** The verdict when the literal table cannot be read. */
  lemma FirstFails(s: Source, p: nat, h: Header)
    requires HeaderOk(h) && RunsAt(s, p, CodeLengths(h.raw), h.runs)
    requires NoSupply(s, p, CodeLengths(h.raw), [], LitCount(h), LitCount(h), HLIT_TSIZE)
    ensures !Safe(h)
  {
    hide Supply, RunsAt, HeaderOk, Safe, CodeLengths;
    if Safe(h) {
      FirstSupply(s, p, h);
    }
  }

  /** The verdict when the distance table cannot be read. */
  lemma SecondFails(s: Source, p: nat, h: Header, t: ReadTable)
    requires HeaderOk(h) && RunsAt(s, p, CodeLengths(h.raw), h.runs)
    requires FirstTable(s, p, CodeLengths(h.raw), LitCount(h), t)
    requires NoSupply(s, t.pos, CodeLengths(h.raw), Fill(t.remVal, t.remainder), DistCount(h), LitCount(h), HLIT_TSIZE)
    ensures !Safe(h)
  {
    hide Supply, RunsAt, HeaderOk, Safe, CodeLengths, RunProgress;
    if Safe(h) {
      SafeCarry(s, p, h, t);
      assert t.lens[t.stored..] == Fill(t.remVal, t.remainder);
      SecondSupply(s, p, h, t);
    }
  }

  /** The verdict when both tables can be read. */
  lemma BothSucceed(s: Source, p: nat, h: Header, t: ReadTable, t2: ReadTable)
    requires HeaderOk(h) && RunsAt(s, p, CodeLengths(h.raw), h.runs)
    requires FirstTable(s, p, CodeLengths(h.raw), LitCount(h), t)
    requires SecondTable(s, t.pos, CodeLengths(h.raw), Fill(t.remVal, t.remainder), DistCount(h), t2)
    ensures Safe(h) <==> t2.pos == p + |EncodeRuns(CodeLengths(h.raw), h.runs)|
    ensures Safe(h) ==> t.stored <= |t.lens| && Padded(t.lens[..t.stored], HLIT_TSIZE) == LitLengths(h)
    ensures Safe(h) ==> Padded(t2.lens, HDIST_TSIZE) == DistLengths(h) && |t2.lens| == DistCount(h)
  {
    hide RunsAt, HeaderOk, Safe, CodeLengths, RunProgress, EncodeRuns, SecondTable, Padded;
    HeaderRuns(h);
    if Safe(h) {
      SafeCarry(s, p, h, t);
      assert t.lens[t.stored..] == Fill(t.remVal, t.remainder);
      SafeResult(s, p, h, t, t2);
    } else {
      UnsafeResult(s, p, h, t, Fill(t.remVal, t.remainder), t2);
    }
  }

  // ---------------------------------------------------------------------------
  // A header that the C code cannot read

  /** Literal 0 and the end of the block have one-bit codes; one run of 31 zeros covers the 29
      length symbols and both distance symbols. */
  const CROSSING_HEADER := Header(29, 1, 14,
    [0, 0, 1, 0, 0, 0, 0, 0, 0, 0, 0, 0, 0, 0, 0, 0, 0, 1],
    [Single(1), LongZeros(127), LongZeros(106), Single(1), LongZeros(20)])

  lemma CrossingHeader()
    ensures HeaderOk(CROSSING_HEADER) && !Safe(CROSSING_HEADER)
  {
    var h := CROSSING_HEADER;
    var rs := h.runs;
    assert Pow2(7) == 128;
    assert Front(rs) == rs[..4] && Front(rs[..4]) == rs[..3] && Front(rs[..3]) == rs[..2] &&
           Front(rs[..2]) == rs[..1] && Front(rs[..1]) == [];
    assert rs[..5] == rs;
    assert TotalLength(rs[..1]) == 1 && TotalLength(rs[..2]) == 139 && TotalLength(rs[..3]) == 256;
    assert TotalLength(rs[..4]) == 257 && TotalLength(rs) == 288;
    assert Breaks(rs, 4, LitCount(h));
    ExpandedLength([], rs);
    CrossingCodes();
  }

  lemma CrossingCodes()
    ensures RawOk(CROSSING_HEADER.raw) && RunsEncodable(CodeLengths(CROSSING_HEADER.raw), CROSSING_HEADER.runs)
  {
    var clens := CodeLengths(CROSSING_HEADER.raw);
    assert forall j :: 0 <= j < CLEN_TSIZE ==> clens[j] == if j == 1 || j == 18 then 1 else 0;
    NoneBefore(clens, 1);
    NoneBetween(clens, 18);
  }

  lemma {:induction false} NoneBefore(lens: Lengths, j: nat)
    requires j <= |lens| && forall i :: 0 <= i < j ==> lens[i] != 1
    ensures CountBefore(lens, 1, j) == 0
  {
    if j > 0 {
      NoneBefore(lens, j - 1);
    }
  }

  lemma {:induction false} NoneBetween(lens: Lengths, j: nat)
    requires 2 <= j <= |lens| && CountBefore(lens, 1, 1) == 0 && lens[1] == 1
    requires forall i :: 2 <= i < j ==> lens[i] != 1
    ensures CountBefore(lens, 1, j) == 1
  {
    if j > 2 {
      NoneBetween(lens, j - 1);
    }
  }
}
