/** Huffman-coded scans in all modes: blocks with DC prediction and end-of-band runs,
    segments, restart markers (T.81 sections F.1.2, F.2.2, G.1.2 and G.2). */
module HuffmanScan {
  import opened Powers
  import opened Bytes
  import opened BitStreams
  import opened Coefficients
  import opened HuffmanCode
  import opened HuffmanTables
  import opened HuffmanWriter
  import opened HuffmanBlock
  import opened ProgressiveTokens
  import opened ProgressiveBand

  datatype Mode = Sequential | DcFirst | AcFirst | DcRefine | AcRefine

  /** Parameters of a scan with `comps` components.  In sequential mode `se` is the last
      coded coefficient, 63 for full-size blocks. */
  datatype Scan = Scan(mode: Mode, ss: nat, se: nat, al: nat, comps: nat)

  predicate IsAc(m: Mode)
  {
    m == AcFirst || m == AcRefine
  }

  predicate UsesDc(m: Mode)
  {
    m == Sequential || m == DcFirst
  }


  predicate ValidScan(s: Scan)
  {
    && 1 <= s.comps <= 4 && s.se < 64 && s.al <= 13
    && (s.mode == Sequential ==> s.ss == 0 && s.al == 0)
    && (s.mode == DcFirst || s.mode == DcRefine ==> s.ss == s.se == 0)
    && (IsAc(s.mode) ==> 0 < s.ss <= s.se && s.comps == 1)
  }

  /** AC coefficients are coded. */
  predicate UsesAc(s: Scan)
  {
    s.se != 0
  }

  /** The tables of a component, on both sides. */
  datatype CompTables = CompTables(dcTable: Table, dc: CTable, acTable: Table, ac: CTable)

  predicate Shaped(c: CompTables)
  {
    && WellFormed(c.dcTable) && WellFormed(c.acTable)
    && |c.dc.ehufco| == |c.dc.ehufsi| == |c.ac.ehufco| == |c.ac.ehufsi| == 256
  }

  /** The tables the scan uses are there, and agree. */
  ghost predicate Encodable(s: Scan, ts: seq<CompTables>)
  {
    |ts| == s.comps && forall i :: 0 <= i < |ts| ==> EncodableAt(s, ts[i])
  }

  ghost predicate EncodableAt(s: Scan, c: CompTables)
  {
    Shaped(c) && (UsesDc(s.mode) ==> Matching(c.dcTable, c.dc)) && (UsesAc(s) ==> Matching(c.acTable, c.ac))
  }

  ghost predicate Readable(s: Scan, ts: seq<CompTables>)
  {
    |ts| == s.comps && forall i :: 0 <= i < |ts| ==> ReadableAt(s, ts[i])
  }

  ghost predicate ReadableAt(s: Scan, c: CompTables)
  {
    Shaped(c) && (UsesDc(s.mode) ==> Upto(c.dcTable.bits, 16) <= 256) && (UsesAc(s) ==> Upto(c.acTable.bits, 16) <= 256)
  }

  /** Symbols are bytes. */
  predicate Bytewise(t: Table)
  {
    forall p :: 0 <= p < |t.vals| ==> t.vals[p] < 256
  }

  /** Tables as jpeg_make_c_derived_tbl accepts them for the scan. */
  ghost predicate Readied(s: Scan, ts: seq<CompTables>)
  {
    forall i :: 0 <= i < |ts| ==> ReadiedAt(s, ts[i])
  }

  ghost predicate ReadiedAt(s: Scan, c: CompTables)
  {
    && Shaped(c) && Bytewise(c.dcTable) && Bytewise(c.acTable)
    && (UsesDc(s.mode) ==> Legal(c.dcTable, 15)) && (UsesAc(s) ==> Legal(c.acTable, 255))
  }

  lemma EncodableReadable(s: Scan, ts: seq<CompTables>)
    requires Encodable(s, ts)
    ensures Readable(s, ts)
  {
    hide Matching;
    forall i | 0 <= i < |ts|
      ensures ReadableAt(s, ts[i])
    {
      assert EncodableAt(s, ts[i]);
      if UsesDc(s.mode) {
        MatchingSizes(ts[i].dcTable, ts[i].dc);
      }
      if UsesAc(s) {
        MatchingSizes(ts[i].acTable, ts[i].ac);
      }
    }
  }

  // ---------------------------------------------------------------- tokens

  /** A block to code. */
  datatype Job = Job(ci: nat, block: Zigzag)

  ghost predicate ValidJobs(s: Scan, jobs: seq<Job>)
  {
    forall i :: 0 <= i < |jobs| ==> jobs[i].ci < s.comps && IsJcoef(jobs[i].block)
  }

  /** DC predictions and the pending end-of-band run of the encoder. */
  datatype State = State(last: seq<int>, pending: Pending)

  predicate ValidState(s: Scan, e: State)
  {
    |e.last| == s.comps && Within(e.pending) && (!IsAc(s.mode) ==> e.pending == NONE)
  }

  function Start(s: Scan): (e: State)
    ensures ValidState(s, e)
  {
    State(seq(s.comps, i => 0), NONE)
  }

  function DcOf(s: Scan, x: Zigzag): int
  {
    ShiftDown(x[0], s.al)
  }

  function BandOf(s: Scan, x: Zigzag): (c: seq<int>)
    requires ValidScan(s)
    ensures |c| <= 63
  {
    if IsAc(s.mode) then Points(x[s.ss..s.se + 1], s.al)
    else if s.mode == Sequential then x[1..s.se + 1]
    else []
  }

  function JobTokens(s: Scan, e: State, job: Job): seq<Token>
    requires ValidScan(s) && ValidState(s, e) && job.ci < s.comps
  {
    var x := job.block;
    match s.mode
    case Sequential => BlockTokens(x[0] - e.last[job.ci], BandOf(s, x))
    case DcFirst => DcTokens(DcOf(s, x) - e.last[job.ci])
    case DcRefine => [Extra(DcOf(s, x), 1)]
    case AcFirst => BandTokens(false, e.pending, BandOf(s, x))
    case AcRefine => BandTokens(true, e.pending, BandOf(s, x))
  }

  function AfterJob(s: Scan, e: State, job: Job): (r: State)
    requires ValidScan(s) && ValidState(s, e) && job.ci < s.comps
    ensures ValidState(s, r)
  {
    match s.mode
    case Sequential => e.(last := e.last[job.ci := job.block[0]])
    case DcFirst => e.(last := e.last[job.ci := DcOf(s, job.block)])
    case DcRefine => e
    case AcFirst => e.(pending := BandPending(false, e.pending, BandOf(s, job.block)))
    case AcRefine => e.(pending := BandPending(true, e.pending, BandOf(s, job.block)))
  }

  predicate SmallCoefs(c: seq<int>)
  {
    forall i :: 0 <= i < |c| ==> Category(c[i]) <= MAX_COEF_BITS
  }

  /** Magnitudes that the encoder does not refuse. */
  predicate JobInRange(s: Scan, e: State, job: Job)
    requires ValidScan(s) && ValidState(s, e) && job.ci < s.comps
  {
    match s.mode
    case Sequential => InRange(job.block[0] - e.last[job.ci], BandOf(s, job.block))
    case DcFirst => Category(DcOf(s, job.block) - e.last[job.ci]) <= MAX_COEF_BITS + 1
    case AcFirst => SmallCoefs(BandOf(s, job.block))
    case DcRefine => true
    case AcRefine => true
  }

  /** Tokens with the component whose tables they use. */
  datatype Tagged = Tagged(ci: nat, k: Token)

  function Tag(ci: nat, ks: seq<Token>): (r: seq<Tagged>)
    ensures |r| == |ks| && forall i :: 0 <= i < |ks| ==> r[i] == Tagged(ci, ks[i])
  {
    if ks == [] then [] else [Tagged(ci, ks[0])] + Tag(ci, ks[1..])
  }

  lemma TagAppend(ci: nat, a: seq<Token>, b: seq<Token>)
    ensures Tag(ci, a + b) == Tag(ci, a) + Tag(ci, b)
  {
  }

  function TaggedBit(ts: seq<CompTables>, t: Tagged): seq<bit>
  {
    if t.ci < |ts| && Shaped(ts[t.ci]) then TokenBits(t.k, ts[t.ci].dc, ts[t.ci].ac) else []
  }

  function TaggedBits(ts: seq<CompTables>, tks: seq<Tagged>): seq<bit>
  {
    if tks == [] then [] else TaggedBit(ts, tks[0]) + TaggedBits(ts, tks[1..])
  }

  predicate HasOne(ts: seq<CompTables>, t: Tagged)
  {
    t.ci < |ts| && Shaped(ts[t.ci]) && HasCode(t.k, ts[t.ci].dc, ts[t.ci].ac)
  }

  ghost predicate HaveAll(ts: seq<CompTables>, tks: seq<Tagged>)
  {
    forall i :: 0 <= i < |tks| ==> HasOne(ts, tks[i])
  }

  lemma {:induction false} TaggedAppend(ts: seq<CompTables>, a: seq<Tagged>, b: seq<Tagged>)
    ensures TaggedBits(ts, a + b) == TaggedBits(ts, a) + TaggedBits(ts, b)
    ensures HaveAll(ts, a + b) <==> HaveAll(ts, a) && HaveAll(ts, b)
    decreases |a|
  {
    hide TaggedBit, HasOne;
    assert forall i :: 0 <= i < |a| ==> (a + b)[i] == a[i];
    assert forall i :: 0 <= i < |b| ==> (a + b)[|a| + i] == b[i];
    if a == [] {
      assert a + b == b;
    } else {
      assert (a + b)[1..] == a[1..] + b;
      TaggedAppend(ts, a[1..], b);
      Regroup(TaggedBit(ts, a[0]), TaggedBits(ts, a[1..]), TaggedBits(ts, b));
    }
  }

  lemma {:induction false} TagBits(ts: seq<CompTables>, ci: nat, ks: seq<Token>)
    requires ci < |ts| && Shaped(ts[ci])
    ensures TaggedBits(ts, Tag(ci, ks)) == TokensBits(ks, ts[ci].dc, ts[ci].ac)
    ensures HaveAll(ts, Tag(ci, ks)) <==> HaveCodes(ks, ts[ci].dc, ts[ci].ac)
  {
    hide HasCode, TokenBits;
    if ks != [] {
      TagBits(ts, ci, ks[1..]);
      assert Tag(ci, ks)[1..] == Tag(ci, ks[1..]);
    }
    if HaveAll(ts, Tag(ci, ks)) {
      assert forall i :: 0 <= i < |ks| ==> HasOne(ts, Tag(ci, ks)[i]);
    }
  }

  /** Tokens of the blocks `jobs`, without those still pending at the end. */
  function JobsTagged(s: Scan, e: State, jobs: seq<Job>): seq<Tagged>
    requires ValidScan(s) && ValidState(s, e) && forall i :: 0 <= i < |jobs| ==> jobs[i].ci < s.comps
    decreases |jobs|
  {
    if jobs == [] then []
    else Tag(jobs[0].ci, JobTokens(s, e, jobs[0])) + JobsTagged(s, AfterJob(s, e, jobs[0]), jobs[1..])
  }

  function AfterJobs(s: Scan, e: State, jobs: seq<Job>): (r: State)
    requires ValidScan(s) && ValidState(s, e) && forall i :: 0 <= i < |jobs| ==> jobs[i].ci < s.comps
    ensures ValidState(s, r)
    decreases |jobs|
  {
    if jobs == [] then e else AfterJobs(s, AfterJob(s, e, jobs[0]), jobs[1..])
  }

  ghost predicate AllInRange(s: Scan, e: State, jobs: seq<Job>)
    requires ValidScan(s) && ValidState(s, e) && forall i :: 0 <= i < |jobs| ==> jobs[i].ci < s.comps
    decreases |jobs|
  {
    jobs == [] || (JobInRange(s, e, jobs[0]) && AllInRange(s, AfterJob(s, e, jobs[0]), jobs[1..]))
  }

  function Flush(e: State): seq<Tagged>
  {
    Tag(0, Eob(e.pending.run, e.pending.bits))
  }

  /** All tokens of a segment. */
  function SegmentTagged(s: Scan, e: State, jobs: seq<Job>): seq<Tagged>
    requires ValidScan(s) && ValidState(s, e) && forall i :: 0 <= i < |jobs| ==> jobs[i].ci < s.comps
  {
    JobsTagged(s, e, jobs) + Flush(AfterJobs(s, e, jobs))
  }

  /** The encoder accepts the segment, and its bits. */
  ghost predicate Accepted(s: Scan, ts: seq<CompTables>, jobs: seq<Job>)
    requires ValidScan(s) && ValidJobs(s, jobs)
  {
    AllInRange(s, Start(s), jobs) && HaveAll(ts, SegmentTagged(s, Start(s), jobs))
  }

  ghost function SegmentBits(s: Scan, ts: seq<CompTables>, jobs: seq<Job>): seq<bit>
    requires ValidScan(s) && ValidJobs(s, jobs)
  {
    TaggedBits(ts, SegmentTagged(s, Start(s), jobs))
  }

  /** `codes` are the bytes of the segments. */
  ghost predicate ScanCodes(s: Scan, ts: seq<CompTables>, segs: seq<seq<Job>>, codes: seq<seq<byte>>)
    requires ValidScan(s) && forall i :: 0 <= i < |segs| ==> ValidJobs(s, segs[i])
  {
    && |codes| == |segs|
    && forall i :: 0 <= i < |segs| ==>
         Accepted(s, ts, segs[i]) && IsSegment(codes[i], SegmentBits(s, ts, segs[i]))
  }

  // ------------------------------------------------------------------ parsing

  /** A block to decode: its component, and what it holds so far. */
  datatype Slot = Slot(ci: nat, held: Zigzag)

  ghost predicate ValidSlots(s: Scan, slots: seq<Slot>)
  {
    forall i :: 0 <= i < |slots| ==> slots[i].ci < s.comps
  }

  /** DC predictions of the decoder, and blocks left in the end-of-band run. */
  datatype Pred = Pred(last: seq<int>, run: nat)

  function NoPred(s: Scan): (p: Pred)
    ensures |p.last| == s.comps
  {
    Pred(seq(s.comps, i => 0), 0)
  }

  /** A block decoded over what it holds. */
  ghost function ParseBlock(s: Scan, ts: seq<CompTables>, p: Pred, slot: Slot, bits: seq<bit>, pos: nat)
    : (r: (Zigzag, Pred, nat))
    requires ValidScan(s) && Readable(s, ts) && |p.last| == s.comps && slot.ci < s.comps
    ensures |r.1.last| == s.comps
  {
    var c, b, p1 := ts[slot.ci], slot.held, Pow2(s.al);
    assert ReadableAt(s, c);
    match s.mode
    case Sequential =>
      var (diff, q) := ParseDcDiff(c.dcTable, bits, pos);
      var dc := p.last[slot.ci] + diff;
      var (x, after) := ParseAc(c.acTable, bits, q, 1, s.se, b[0 := ToCoef(dc)]);
      (x, p.(last := p.last[slot.ci := dc]), after)
    case DcFirst =>
      var (diff, q) := ParseDcDiff(c.dcTable, bits, pos);
      var dc := p.last[slot.ci] + diff;
      (b[0 := ToCoef(dc * p1)], p.(last := p.last[slot.ci := dc]), q)
    case DcRefine =>
      (if BitAt(bits, pos) == 1 then b[0 := OrBit(b[0], p1)] else b, p, pos + 1)
    case AcFirst =>
      var (x, run, q) := BlockBand(false, c.acTable, b, s.ss, p.run, s.se, p1, bits, pos);
      (x, p.(run := run), q)
    case AcRefine =>
      var (x, run, q) := BlockBand(true, c.acTable, b, s.ss, p.run, s.se, p1, bits, pos);
      (x, p.(run := run), q)
  }

  ghost function ParseSegment(s: Scan, ts: seq<CompTables>, p: Pred, slots: seq<Slot>, bits: seq<bit>, pos: nat)
    : (r: (seq<Zigzag>, Pred, nat))
    requires ValidScan(s) && Readable(s, ts) && |p.last| == s.comps && ValidSlots(s, slots)
    ensures |r.0| == |slots| && |r.1.last| == s.comps
    decreases |slots|
  {
    if slots == [] then ([], p, pos)
    else
      var (b, next, q) := ParseBlock(s, ts, p, slots[0], bits, pos);
      var (rest, after, end) := ParseSegment(s, ts, next, slots[1..], bits, q);
      ([b] + rest, after, end)
  }

  /** The blocks of a scan and what follows it, or a wrong or missing marker. */
  datatype ScanResult = Complete(blocks: seq<seq<Zigzag>>, ending: Ending) | BadScan

  ghost function ParseScan(s: Scan, ts: seq<CompTables>, slots: seq<seq<Slot>>, n: nat, input: seq<byte>): ScanResult
    requires ValidScan(s) && Readable(s, ts) && slots != []
    requires forall i :: 0 <= i < |slots| ==> ValidSlots(s, slots[i])
    decreases |slots|
  {
    var seg := ParseSegment(s, ts, NoPred(s), slots[0], Unpack(Payload(input)), 0);
    if End(input).Cut? then BadScan
    else if |slots| == 1 then Complete([seg.0], End(input))
    else if End(input).code != 0xD0 + n % 8 then BadScan
    else match ParseScan(s, ts, slots[1..], n + 1, End(input).rest)
      case Complete(blocks, ending) => Complete([seg.0] + blocks, ending)
      case BadScan => BadScan
  }

  /** Every segment has the bits its blocks need, and the marker that belongs after it. */
  ghost predicate Ample(s: Scan, ts: seq<CompTables>, slots: seq<seq<Slot>>, n: nat, input: seq<byte>)
    requires ValidScan(s) && Readable(s, ts) && slots != []
    requires forall i :: 0 <= i < |slots| ==> ValidSlots(s, slots[i])
    decreases |slots|
  {
    && ParseSegment(s, ts, NoPred(s), slots[0], Unpack(Payload(input)), 0).2 <= 8 * |Payload(input)|
    && End(input).At?
    && (|slots| > 1 ==> End(input).code == 0xD0 + n % 8 && Ample(s, ts, slots[1..], n + 1, End(input).rest))
  }

  // ------------------------------------------------------- how far a block reaches

  lemma DecodeMoves(t: Table, s: seq<bit>, pos: nat)
    requires WellFormed(t) && Upto(t.bits, 16) <= 256
    ensures pos < Decode(t, s, pos).1
  {
  }

  lemma {:induction false} AcMoves(t: Table, s: seq<bit>, pos: nat, k: nat, se: nat, b: Zigzag)
    requires Suits(t, k, se) && se < 64
    ensures pos <= ParseAc(t, s, pos, k, se, b).1
    decreases se + 1 - k
  {
    hide Decode, Extend, ToCoef, Window;
    if k <= se {
      DecodeMoves(t, s, pos);
      var (y, p) := Decode(t, s, pos);
      var r, n := y / 16, y % 16;
      if n != 0 {
        AcMoves(t, s, p + n, k + r + 1, se, b[Place(k + r, se) := ToCoef(Extend(Window(s, p, n), n))]);
      } else if r == 15 {
        AcMoves(t, s, p, k + 16, se, b);
      }
    }
  }

  lemma {:induction false} SkipMoves(refine: bool, b: Zigzag, k: nat, r: nat, se: nat, p1: nat, s: seq<bit>, pos: nat)
    requires 0 < p1 && se < 64
    ensures pos <= Skip(refine, b, k, r, se, p1, s, pos).2
    decreases se + 1 - k
  {
    hide Correct;
    if refine && k <= se {
      if b[k] != 0 {
        SkipMoves(refine, b[k := Correct(b[k], BitAt(s, pos), p1)], k + 1, r, se, p1, s, pos + 1);
      } else if r != 0 {
        SkipMoves(refine, b, k + 1, r - 1, se, p1, s, pos);
      }
    }
  }

  lemma RestMoves(refine: bool, b: Zigzag, k: nat, se: nat, p1: nat, s: seq<bit>, pos: nat)
    requires 0 < p1 && se < 64
    ensures pos <= Rest(refine, b, k, se, p1, s, pos).1
  {
    hide Skip;
    SkipMoves(refine, b, k, 64, se, p1, s, pos);
  }

  lemma {:induction false} BandMoves(refine: bool, t: Table, b: Zigzag, k: nat, se: nat, p1: nat, s: seq<bit>, pos: nat)
    requires 0 < p1 && se < 64 && WellFormed(t) && Upto(t.bits, 16) <= 256
    ensures pos <= Band(refine, t, b, k, se, p1, s, pos).2
    decreases se + 1 - k
  {
    hide Decode, Skip, Rest, NewValue, Pow2, Window;
    if k <= se {
      DecodeMoves(t, s, pos);
      var (y, p) := Decode(t, s, pos);
      var r, n := y / 16, y % 16;
      if n == 0 && r != 15 {
        RestMoves(refine, b, k, se, p1, s, p + r);
      } else {
        SkipMoves(refine, b, k, r, se, p1, s, p + NewSize(refine, n));
        var (c, j, q) := Skip(refine, b, k, r, se, p1, s, p + NewSize(refine, n));
        BandMoves(refine, t, if n != 0 then c[ProgressiveBand.Slot(j) := NewValue(refine, n, p1, s, p)] else c, j + 1,
                  se, p1, s, q);
      }
    }
  }

  lemma BlockMoves(s: Scan, ts: seq<CompTables>, p: Pred, slot: Slot, bits: seq<bit>, pos: nat)
    requires ValidScan(s) && Readable(s, ts) && |p.last| == s.comps && slot.ci < s.comps
    ensures pos <= ParseBlock(s, ts, p, slot, bits, pos).2
  {
    hide Band, Rest, ParseAc, Decode, Extend, Window, ToCoef, OrBit;
    var c, b, p1 := ts[slot.ci], slot.held, Pow2(s.al);
    assert ReadableAt(s, c);
    if UsesDc(s.mode) {
      DecodeMoves(c.dcTable, bits, pos);
      if s.mode == Sequential {
        var (diff, q) := ParseDcDiff(c.dcTable, bits, pos);
        AcMoves(c.acTable, bits, q, 1, s.se, b[0 := ToCoef(p.last[slot.ci] + diff)]);
      }
    } else if IsAc(s.mode) {
      BandMoves(s.mode == AcRefine, c.acTable, b, s.ss, s.se, p1, bits, pos);
      RestMoves(s.mode == AcRefine, b, s.ss, s.se, p1, bits, pos);
    }
  }

  lemma {:induction false} SegmentMoves(s: Scan, ts: seq<CompTables>, p: Pred, slots: seq<Slot>, bits: seq<bit>,
                                        pos: nat)
    requires ValidScan(s) && Readable(s, ts) && |p.last| == s.comps && ValidSlots(s, slots)
    ensures pos <= ParseSegment(s, ts, p, slots, bits, pos).2
    decreases |slots|
  {
    hide ParseBlock, Readable;
    if slots != [] {
      BlockMoves(s, ts, p, slots[0], bits, pos);
      var (b, next, q) := ParseBlock(s, ts, p, slots[0], bits, pos);
      SegmentMoves(s, ts, next, slots[1..], bits, q);
    }
  }

  /** More blocks end no earlier. */
  lemma {:induction false} SegmentPrefix(s: Scan, ts: seq<CompTables>, p: Pred, slots: seq<Slot>, more: seq<Slot>,
                                         bits: seq<bit>, pos: nat)
    requires ValidScan(s) && Readable(s, ts) && |p.last| == s.comps && ValidSlots(s, slots)
             && ValidSlots(s, slots + more)
    ensures ParseSegment(s, ts, p, slots, bits, pos).2 <= ParseSegment(s, ts, p, slots + more, bits, pos).2
    decreases |slots|
  {
    hide ParseBlock, Readable;
    if slots == [] {
      SegmentMoves(s, ts, p, slots + more, bits, pos);
    } else {
      assert (slots + more)[0] == slots[0] && (slots + more)[1..] == slots[1..] + more;
      var (b, next, q) := ParseBlock(s, ts, p, slots[0], bits, pos);
      SegmentPrefix(s, ts, next, slots[1..], more, bits, q);
    }
  }

  // ------------------------------------------------------- before and after a scan

  /** The block after the scan: covered positions at the new stage. */
  function Target(s: Scan, x: Zigzag, b: Zigzag): (r: Zigzag)
    ensures forall j :: 0 <= j < 64 ==> r[j] == if s.ss <= j <= s.se then Staged(x, j, s.al) else b[j]
  {
    seq(64, j requires 0 <= j < 64 => if s.ss <= j <= s.se then Staged(x, j, s.al) else b[j])
  }

  /** What the decoder's block holds before the scan: zeros before a first scan of AC
      positions, the previous stage before a refinement. */
  ghost predicate Behind(s: Scan, x: Zigzag, b: Zigzag)
  {
    forall j :: 0 <= j < 64 && s.ss <= j <= s.se ==> BehindAt(s, x, b, j)
  }

  ghost predicate BehindAt(s: Scan, x: Zigzag, b: Zigzag, j: nat)
    requires j < 64
  {
    match s.mode
    case Sequential => j == 0 || b[j] == 0
    case DcFirst => true
    case AcFirst => b[j] == 0
    case DcRefine => b[j] == Staged(x, j, s.al + 1)
    case AcRefine => b[j] == Staged(x, j, s.al + 1)
  }

  /** The slots are those of the jobs, one stage behind. */
  ghost predicate Fits(s: Scan, jobs: seq<Job>, slots: seq<Slot>)
  {
    && |jobs| == |slots|
    && forall i :: 0 <= i < |jobs| ==>
         && slots[i].ci == jobs[i].ci < s.comps && IsJcoef(jobs[i].block)
         && Behind(s, jobs[i].block, slots[i].held)
  }

  function Targets(s: Scan, jobs: seq<Job>, slots: seq<Slot>): (r: seq<Zigzag>)
    requires |jobs| == |slots|
    ensures |r| == |jobs| && forall i :: 0 <= i < |jobs| ==> r[i] == Target(s, jobs[i].block, slots[i].held)
    decreases |jobs|
  {
    if jobs == [] then []
    else [Target(s, jobs[0].block, slots[0].held)] + Targets(s, jobs[1..], slots[1..])
  }
}
