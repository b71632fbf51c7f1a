/** Decoding what the encoder writes: blocks, segments with end-of-band runs, and whole
    scans, in every mode. */
module HuffmanRoundTrip {
  import opened Powers
  import opened Bytes
  import opened BitStreams
  import opened Coefficients
  import opened RestartGroups
  import opened HuffmanCode
  import opened HuffmanWriter
  import opened HuffmanBlock
  import opened ProgressiveTokens
  import opened ProgressiveBand
  import opened ProgressiveRuns
  import opened HuffmanScan

  // ------------------------------------------------- modes without end-of-band runs

  /** The tokens of a job are in the stream. */
  ghost predicate JobThere(s: Scan, ts: seq<CompTables>, e: State, job: Job, bits: seq<bit>, pos: nat)
    requires ValidScan(s) && ValidState(s, e) && job.ci < s.comps && |ts| == s.comps
  {
    && Shaped(ts[job.ci])
    && InStream(JobTokens(s, e, job), ts[job.ci].dc, ts[job.ci].ac, bits, pos)
  }

  /** Blocks of one coefficient have no AC coefficients, and need no table for them. */
  lemma NoAc(c: CompTables, b: Zigzag, bits: seq<bit>, pos: nat)
    requires Shaped(c)
    ensures ParseAc(c.acTable, bits, pos, 1, 0, b) == (b, pos) && Replace(b, 1, []) == b
    ensures TokensBits(AcTokens([], 0), c.dc, c.ac) == []
  {
    assert Replace(b, 1, []) == b;
  }

  lemma SequentialParsed(s: Scan, ts: seq<CompTables>, e: State, p: Pred, job: Job, b: Zigzag, bits: seq<bit>, pos: nat)
    requires ValidScan(s) && s.mode == Sequential && Encodable(s, ts) && Readable(s, ts) && ValidState(s, e)
    requires p.last == e.last && job.ci < s.comps && IsJcoef(job.block) && Behind(s, job.block, b)
    requires JobInRange(s, e, job) && JobThere(s, ts, e, job, bits, pos)
    ensures var n := |TokensBits(JobTokens(s, e, job), ts[job.ci].dc, ts[job.ci].ac)|;
      ParseBlock(s, ts, p, Slot(job.ci, b), bits, pos)
      == (Target(s, job.block, b), Pred(AfterJob(s, e, job).last, p.run), pos + n)
  {
    hide Holds, HaveCodes, TokensBits, DcTokens, AcTokens, ParseDcDiff, ParseAc, Matching, Category, Replace;
    var c, x := ts[job.ci], job.block;
    assert EncodableAt(s, c);
    var diff, cs := x[0] - e.last[job.ci], BandOf(s, x);
    var d, a := DcTokens(diff), AcTokens(cs, 0);
    TokensAppend(d, a, c.dc, c.ac);
    HoldsSplit(bits, pos, TokensBits(d, c.dc, c.ac), TokensBits(a, c.dc, c.ac));
    DcParsed(c.dcTable, c.dc, c.ac, diff, bits, pos);
    var y := b[0 := ToCoef(x[0])];
    forall j | 1 <= j <= s.se
      ensures y[j] == 0
    {
      assert BehindAt(s, x, b, j);
    }
    if s.se == 0 {
      NoAc(c, y, bits, pos + |TokensBits(d, c.dc, c.ac)|);
      assert cs == [];
    } else {
      AcParsed(c.acTable, c.ac, c.dc, cs, 0, 1, s.se, y, bits, pos + |TokensBits(d, c.dc, c.ac)|);
    }
    SequentialTarget(s, x, b);
  }

  lemma SequentialTarget(s: Scan, x: Zigzag, b: Zigzag)
    requires ValidScan(s) && s.mode == Sequential && IsJcoef(x)
    ensures Target(s, x, b) == Replace(b[0 := ToCoef(x[0])], 1, BandOf(s, x))
  {
    forall j | 0 <= j < 64
      ensures Staged(x, j, 0) == x[j]
    {
      PointBounds(x[j], 0);
      assert Pow2(0) == 1 && ShiftDown(x[0], 0) == x[0];
    }
    assert ToCoef(x[0]) == x[0];
    hide Staged, ToCoef, Point;
  }

  lemma DcFirstParsed(s: Scan, ts: seq<CompTables>, e: State, p: Pred, job: Job, b: Zigzag, bits: seq<bit>, pos: nat)
    requires ValidScan(s) && s.mode == DcFirst && Encodable(s, ts) && Readable(s, ts) && ValidState(s, e)
    requires p.last == e.last && job.ci < s.comps && IsJcoef(job.block)
    requires JobThere(s, ts, e, job, bits, pos)
    ensures var n := |TokensBits(JobTokens(s, e, job), ts[job.ci].dc, ts[job.ci].ac)|;
      ParseBlock(s, ts, p, Slot(job.ci, b), bits, pos)
      == (Target(s, job.block, b), Pred(AfterJob(s, e, job).last, p.run), pos + n)
  {
    hide Holds, HaveCodes, TokensBits, DcTokens, ParseDcDiff, Matching, Category, ShiftDown;
    var c, x := ts[job.ci], job.block;
    assert EncodableAt(s, c);
    DcParsed(c.dcTable, c.dc, c.ac, DcOf(s, x) - e.last[job.ci], bits, pos);
    DcTarget(s, x, b);
  }

  lemma DcTarget(s: Scan, x: Zigzag, b: Zigzag)
    requires ValidScan(s) && s.ss == s.se == 0 && IsJcoef(x)
    ensures Target(s, x, b) == b[0 := ToCoef(DcOf(s, x) * Pow2(s.al))]
  {
    ShiftDownBounds(x[0], s.al);
    hide ToCoef, ShiftDown;
  }

  lemma RefinedDc(s: Scan, x: Zigzag, b: Zigzag)
    requires ValidScan(s) && s.mode == DcRefine && IsJcoef(x) && Behind(s, x, b)
    ensures Target(s, x, b) == if DcOf(s, x) % 2 == 1 then b[0 := OrBit(b[0], Pow2(s.al))] else b
  {
    hide ShiftDown, OrBit, ToCoef;
    assert BehindAt(s, x, b, 0);
    var h: int, d: int, q: int := ShiftDown(x[0], s.al + 1), ShiftDown(x[0], s.al), Pow2(s.al);
    ShiftDownBounds(x[0], s.al);
    NextBit(h, d, q);
    MulShuffle(h, 2, q);
    DcTarget(s, x, b);
    assert ToCoef(d * q) == d * q;
    assert b[0 := b[0]] == b;
  }

  lemma DcRefineParsed(s: Scan, ts: seq<CompTables>, e: State, p: Pred, job: Job, b: Zigzag, bits: seq<bit>, pos: nat)
    requires ValidScan(s) && s.mode == DcRefine && Readable(s, ts) && ValidState(s, e)
    requires p.last == e.last && job.ci < s.comps && IsJcoef(job.block) && Behind(s, job.block, b)
    requires JobThere(s, ts, e, job, bits, pos)
    ensures var n := |TokensBits(JobTokens(s, e, job), ts[job.ci].dc, ts[job.ci].ac)|;
      ParseBlock(s, ts, p, Slot(job.ci, b), bits, pos)
      == (Target(s, job.block, b), Pred(AfterJob(s, e, job).last, p.run), pos + n)
  {
    hide HaveCodes, ShiftDown, Matching, OrBit, ToCoef, Target, Behind;
    var c, d := ts[job.ci], DcOf(s, job.block);
    OneToken(Extra(d, 1), c.dc, c.ac);
    SentBit(d, bits, pos);
    RefinedDc(s, job.block, b);
  }

  lemma SentBit(d: int, bits: seq<bit>, pos: nat)
    requires Holds(bits, pos, Word(d % Pow2(1), 1))
    ensures BitAt(bits, pos) == d % 2
  {
    assert Pow2(1) == 2;
    var w := Word(d % 2, 1);
    assert w == Word(d % 2 / 2, 0) + [d % 2];
    assert bits[pos + 0] == w[0];
  }

  lemma BlockParsed(s: Scan, ts: seq<CompTables>, e: State, p: Pred, job: Job, b: Zigzag, bits: seq<bit>, pos: nat)
    requires ValidScan(s) && !IsAc(s.mode) && Encodable(s, ts) && Readable(s, ts) && ValidState(s, e)
    requires p.last == e.last && job.ci < s.comps && IsJcoef(job.block) && Behind(s, job.block, b)
    requires JobInRange(s, e, job) && JobThere(s, ts, e, job, bits, pos)
    ensures var n := |TokensBits(JobTokens(s, e, job), ts[job.ci].dc, ts[job.ci].ac)|;
      ParseBlock(s, ts, p, Slot(job.ci, b), bits, pos)
      == (Target(s, job.block, b), Pred(AfterJob(s, e, job).last, p.run), pos + n)
  {
    hide JobThere, Encodable, Readable, JobInRange, IsJcoef, Behind, ParseBlock, Target, AfterJob, JobTokens,
      TokensBits;
    match s.mode
    case Sequential => SequentialParsed(s, ts, e, p, job, b, bits, pos);
    case DcFirst => DcFirstParsed(s, ts, e, p, job, b, bits, pos);
    case DcRefine => DcRefineParsed(s, ts, e, p, job, b, bits, pos);
  }

  lemma NoTagged(ts: seq<CompTables>)
    ensures TaggedBits(ts, []) == [] && HaveAll(ts, [])
  {
  }

  /** The blocks of a segment, when nothing is ever pending. */
  lemma {:induction false} JobsParsed(s: Scan, ts: seq<CompTables>, e: State, p: Pred, jobs: seq<Job>, slots: seq<Slot>,
                                      bits: seq<bit>, pos: nat)
    requires ValidScan(s) && !IsAc(s.mode) && Encodable(s, ts) && Readable(s, ts) && ValidState(s, e)
    requires p.last == e.last && Fits(s, jobs, slots) && ValidSlots(s, slots)
    requires AllInRange(s, e, jobs) && HaveAll(ts, JobsTagged(s, e, jobs))
    requires Holds(bits, pos, TaggedBits(ts, JobsTagged(s, e, jobs)))
    ensures ParseSegment(s, ts, p, slots, bits, pos)
         == (Targets(s, jobs, slots), Pred(AfterJobs(s, e, jobs).last, p.run),
             pos + |TaggedBits(ts, JobsTagged(s, e, jobs))|)
    decreases |jobs|
  {
    hide Holds, TaggedBits, HaveAll, ParseBlock, JobTokens, AfterJob, JobInRange, Behind, IsJcoef, Target, Shaped,
      TokensBits, Matching, HaveCodes, Tag;
    NoTagged(ts);
    if jobs != [] {
      var job, b := jobs[0], slots[0].held;
      assert slots[0].ci == job.ci < s.comps && IsJcoef(job.block) && Behind(s, job.block, b);
      var next := AfterJob(s, e, job);
      var ks, rest := JobTokens(s, e, job), JobsTagged(s, next, jobs[1..]);
      assert EncodableAt(s, ts[job.ci]);
      TaggedAppend(ts, Tag(job.ci, ks), rest);
      TagBits(ts, job.ci, ks);
      HoldsSplit(bits, pos, TaggedBits(ts, Tag(job.ci, ks)), TaggedBits(ts, rest));
      BlockParsed(s, ts, e, p, job, b, bits, pos);
      var q := Pred(next.last, p.run);
      JobsParsed(s, ts, next, q, jobs[1..], slots[1..], bits, pos + |TaggedBits(ts, Tag(job.ci, ks))|);
      assert slots[0] == Slot(job.ci, b);
    }
  }

  // ------------------------------------------------------------------- AC modes

  function Units(s: Scan, jobs: seq<Job>, slots: seq<Slot>): (us: seq<Unit>)
    requires ValidScan(s) && |jobs| == |slots|
    ensures |us| == |jobs|
    ensures forall i :: 0 <= i < |us| ==> us[i] == Unit(slots[i].held, s.ss, BandOf(s, jobs[i].block))
    decreases |jobs|
  {
    if jobs == [] then []
    else [Unit(slots[0].held, s.ss, BandOf(s, jobs[0].block))] + Units(s, jobs[1..], slots[1..])
  }

  /** One stage behind is what the decoder needs. */
  lemma ValueBehind(x: int, al: nat)
    requires -0x8000 <= x < 0x8000
    ensures InCoef(Point(x, al) * Pow2(al))
    ensures Before(true, Point(x, al), Pow2(al)) == Point(x, al + 1) * Pow2(al + 1)
    ensures Fresh(true, Point(x, al)) ==> Category(Point(x, al)) <= 15
  {
    PointBounds(x, al);
    PointBounds(x, al + 1);
    var y := Point(x, al);
    assert Abs(y) == Shift(Abs(x), al) && Shift(Abs(x), al + 1) == Shift(Abs(x), al) / 2;
    hide Shift, Pow2;
    if y == 0 {
      assert Point(x, al + 1) == 0;
    } else {
      assert SignBit(y) == SignBit(x);
    }
    assert Pow2(al + 1) == 2 * Pow2(al) by {
      DoublePow(al);
    }
    if Abs(y) == 1 {
      assert Levels(1) == 0;
    }
  }

  lemma DoublePow(n: nat)
    ensures Pow2(n + 1) == 2 * Pow2(n)
  {
  }

  lemma UnitFits(s: Scan, e: State, job: Job, slot: Slot)
    requires ValidScan(s) && IsAc(s.mode) && ValidState(s, e) && job.ci < s.comps && IsJcoef(job.block)
    requires JobInRange(s, e, job) && Behind(s, job.block, slot.held)
    ensures var u := Unit(slot.held, s.ss, BandOf(s, job.block)); var refine := s.mode == AcRefine;
      UnitReady(refine, u, s.se, Pow2(s.al)) && UnitDone(u, Pow2(s.al)) == Target(s, job.block, slot.held)
  {
    hide Point, Pow2, Fresh, Category, Before, InCoef, Shift;
    var x, b, c, refine := job.block, slot.held, BandOf(s, job.block), s.mode == AcRefine;
    assert |c| == s.se + 1 - s.ss;
    forall i | 0 <= i < |c|
      ensures b[s.ss + i] == Before(refine, c[i], Pow2(s.al)) && InCoef(c[i] * Pow2(s.al))
      ensures Fresh(refine, c[i]) ==> Category(c[i]) <= 15
    {
      assert c[i] == Point(x[s.ss + i], s.al);
      assert BehindAt(s, x, b, s.ss + i);
      ValueBehind(x[s.ss + i], s.al);
      if !refine {
        BeforeFirst(c[i], Pow2(s.al));
      }
    }
    var u := Unit(b, s.ss, c);
    assert forall j :: 0 <= j < 64 ==> UnitDone(u, Pow2(s.al))[j] == Target(s, x, b)[j];
  }

  lemma BeforeFirst(x: int, p1: nat)
    ensures Before(false, x, p1) == 0
  {
  }

  lemma {:induction false} AllUnitsFit(s: Scan, e: State, jobs: seq<Job>, slots: seq<Slot>)
    requires ValidScan(s) && IsAc(s.mode) && ValidState(s, e) && Fits(s, jobs, slots)
    requires AllInRange(s, e, jobs)
    ensures AllReady(s.mode == AcRefine, Units(s, jobs, slots), s.se, Pow2(s.al))
    ensures AllDone(Units(s, jobs, slots), Pow2(s.al)) == Targets(s, jobs, slots)
    decreases |jobs|
  {
    hide UnitReady, UnitDone, Target, Behind, IsJcoef, JobInRange, AfterJob, BandOf;
    if jobs != [] {
      assert slots[0].ci == jobs[0].ci < s.comps && IsJcoef(jobs[0].block) && Behind(s, jobs[0].block, slots[0].held);
      UnitFits(s, e, jobs[0], slots[0]);
      AllUnitsFit(s, AfterJob(s, e, jobs[0]), jobs[1..], slots[1..]);
      var us := Units(s, jobs, slots);
      assert us[1..] == Units(s, jobs[1..], slots[1..]);
      assert forall i :: 0 < i < |us| ==> us[i] == us[1..][i - 1];
    }
  }

  lemma {:induction false} ParsedAsUnits(s: Scan, ts: seq<CompTables>, p: Pred, jobs: seq<Job>, slots: seq<Slot>,
                                         bits: seq<bit>, pos: nat)
    requires ValidScan(s) && IsAc(s.mode) && Readable(s, ts) && |p.last| == s.comps && ValidSlots(s, slots)
    requires |jobs| == |slots| && |ts| == 1 && WellFormed(ts[0].acTable) && Upto(ts[0].acTable.bits, 16) <= 256
    ensures var (bs, run, q) := ParseUnits(s.mode == AcRefine, ts[0].acTable, Units(s, jobs, slots), p.run, s.se,
                                           Pow2(s.al), bits, pos);
      ParseSegment(s, ts, p, slots, bits, pos) == (bs, p.(run := run), q)
    decreases |slots|
  {
    hide BlockBand, BandOf, Readable;
    if slots != [] {
      assert slots[0].ci == 0;
      var us := Units(s, jobs, slots);
      assert us[1..] == Units(s, jobs[1..], slots[1..]);
      var (b, run, q) := BlockBand(s.mode == AcRefine, ts[0].acTable, slots[0].held, s.ss, p.run, s.se, Pow2(s.al),
                                   bits, pos);
      ParsedAsUnits(s, ts, p.(run := run), jobs[1..], slots[1..], bits, q);
    }
  }

  lemma {:induction false} TaggedAsUnits(s: Scan, e: State, jobs: seq<Job>, slots: seq<Slot>)
    requires ValidScan(s) && IsAc(s.mode) && ValidState(s, e) && |jobs| == |slots|
    requires forall i :: 0 <= i < |jobs| ==> jobs[i].ci < s.comps
    ensures SegmentTagged(s, e, jobs)
         == Tag(0, SegmentTokens(s.mode == AcRefine, e.pending, Bands(Units(s, jobs, slots))))
    decreases |jobs|
  {
    hide BandTokens, BandPending, Eob, BandOf, Tag, Within;
    var bands := Bands(Units(s, jobs, slots));
    if jobs == [] {
      var flush := Flush(e);
      assert [] + flush == flush;
    } else {
      var next := AfterJob(s, e, jobs[0]);
      assert Units(s, jobs, slots)[1..] == Units(s, jobs[1..], slots[1..]);
      assert bands[1..] == Bands(Units(s, jobs[1..], slots[1..]));
      TaggedAsUnits(s, next, jobs[1..], slots[1..]);
      var ks := JobTokens(s, e, jobs[0]);
      Regroup(Tag(0, ks), JobsTagged(s, next, jobs[1..]), Flush(AfterJobs(s, next, jobs[1..])));
      TagAppend(0, ks, SegmentTokens(s.mode == AcRefine, next.pending, bands[1..]));
    }
  }

  // ------------------------------------------------------------------- segments

  lemma AcSegmentParsed(s: Scan, ts: seq<CompTables>, jobs: seq<Job>, slots: seq<Slot>, bits: seq<bit>)
    requires ValidScan(s) && IsAc(s.mode) && Encodable(s, ts) && Readable(s, ts) && Fits(s, jobs, slots)
    requires ValidJobs(s, jobs) && ValidSlots(s, slots)
    requires Accepted(s, ts, jobs) && Holds(bits, 0, SegmentBits(s, ts, jobs))
    ensures var res := ParseSegment(s, ts, NoPred(s), slots, bits, 0);
      res.0 == Targets(s, jobs, slots) && res.1.run == 0 && res.2 == |SegmentBits(s, ts, jobs)|
  {
    hide Holds, TaggedBits, HaveAll, Matching, HaveCodes, TokensBits, SegmentTokens, UnitReady, Targets, AllDone,
      ParseSegment, ParseUnits, Behind, IsJcoef, TailBits, Bands, Tag;
    var refine, c, us, p1 := s.mode == AcRefine, ts[0], Units(s, jobs, slots), Pow2(s.al);
    assert EncodableAt(s, c) && ReadableAt(s, c);
    AllUnitsFit(s, Start(s), jobs, slots);
    ParsedAsUnits(s, ts, NoPred(s), jobs, slots, bits, 0);
    TaggedAsUnits(s, Start(s), jobs, slots);
    var ks := SegmentTokens(refine, NONE, Bands(us));
    TagBits(ts, 0, ks);
    NoneUnsent(refine, s.se, p1);
    UnitsParsed(refine, c.acTable, c.dc, c.ac, [], us, s.se, p1, bits, 0);
    assert [] + us == us;
  }

  lemma SegmentParsed(s: Scan, ts: seq<CompTables>, jobs: seq<Job>, slots: seq<Slot>, bits: seq<bit>)
    requires ValidScan(s) && Encodable(s, ts) && Readable(s, ts) && Fits(s, jobs, slots)
    requires ValidJobs(s, jobs) && ValidSlots(s, slots)
    requires Accepted(s, ts, jobs) && Holds(bits, 0, SegmentBits(s, ts, jobs))
    ensures ParseSegment(s, ts, NoPred(s), slots, bits, 0).0 == Targets(s, jobs, slots)
    ensures ParseSegment(s, ts, NoPred(s), slots, bits, 0).2 <= |SegmentBits(s, ts, jobs)|
  {
    hide Holds, TaggedBits, HaveAll, JobsTagged, Targets, ParseSegment, Encodable, Readable, Fits;
    if IsAc(s.mode) {
      AcSegmentParsed(s, ts, jobs, slots, bits);
    } else {
      var own, flush := JobsTagged(s, Start(s), jobs), Flush(AfterJobs(s, Start(s), jobs));
      TaggedAppend(ts, own, flush);
      HoldsSplit(bits, 0, TaggedBits(ts, own), TaggedBits(ts, flush));
      JobsParsed(s, ts, Start(s), NoPred(s), jobs, slots, bits, 0);
    }
  }

  // ---------------------------------------------------------------------- scans

  ghost predicate ScanFits(s: Scan, segs: seq<seq<Job>>, slots: seq<seq<Slot>>)
  {
    |segs| == |slots| && forall i :: 0 <= i < |segs| ==> Fits(s, segs[i], slots[i])
  }

  function ScanTargets(s: Scan, segs: seq<seq<Job>>, slots: seq<seq<Slot>>): (r: seq<seq<Zigzag>>)
    requires |segs| == |slots| && forall i :: 0 <= i < |segs| ==> |segs[i]| == |slots[i]|
    ensures |r| == |segs| && forall i :: 0 <= i < |segs| ==> r[i] == Targets(s, segs[i], slots[i])
    decreases |segs|
  {
    if segs == [] then [] else [Targets(s, segs[0], slots[0])] + ScanTargets(s, segs[1..], slots[1..])
  }

  lemma FitsValid(s: Scan, jobs: seq<Job>, slots: seq<Slot>)
    requires Fits(s, jobs, slots)
    ensures ValidJobs(s, jobs) && ValidSlots(s, slots) && |jobs| == |slots|
  {
    hide IsJcoef, Behind;
  }

  lemma SegmentHolds(data: seq<byte>, bits: seq<bit>)
    requires IsSegment(data, bits)
    ensures Holds(Unpack(data), 0, bits) && |bits| <= 8 * |data|
  {
  }

  /** One segment read back from its place in the scan. */
  lemma OneSegment(s: Scan, ts: seq<CompTables>, jobs: seq<Job>, slots: seq<Slot>, code: seq<byte>, m: byte,
                   tail: seq<byte>)
    requires ValidScan(s) && Encodable(s, ts) && Readable(s, ts) && Fits(s, jobs, slots) && 0 < m < 255
    requires ValidJobs(s, jobs) && ValidSlots(s, slots)
    requires Accepted(s, ts, jobs) && IsSegment(code, SegmentBits(s, ts, jobs))
    ensures var input := Stuff(code) + [255, m] + tail;
      && End(input) == At(m, tail)
      && ParseSegment(s, ts, NoPred(s), slots, Unpack(Payload(input)), 0).0 == Targets(s, jobs, slots)
      && ParseSegment(s, ts, NoPred(s), slots, Unpack(Payload(input)), 0).2 <= 8 * |Payload(input)|
  {
    hide ParseSegment, SegmentBits, Accepted, IsSegment, Stuff, Payload, End, Unpack, Encodable, Readable, Fits,
      Targets, Holds;
    SegmentHolds(code, SegmentBits(s, ts, jobs));
    SegmentParsed(s, ts, jobs, slots, Unpack(code));
    UnstuffStuff(code, m, tail);
  }

  /** The scan round trip: decoding the written segments gives every covered
      coefficient at the scan's stage, the decoder stops at the marker after the
      scan, and it never needs bits that are not there. */
  lemma {:induction false} ScanParsed(s: Scan, ts: seq<CompTables>, segs: seq<seq<Job>>, slots: seq<seq<Slot>>,
                                      codes: seq<seq<byte>>, n: nat, m: byte, tail: seq<byte>)
    requires ValidScan(s) && Encodable(s, ts) && Readable(s, ts) && segs != [] && 0 < m < 255
    requires ScanFits(s, segs, slots) && (forall i :: 0 <= i < |segs| ==> ValidJobs(s, segs[i]))
    requires forall i :: 0 <= i < |slots| ==> ValidSlots(s, slots[i])
    requires forall i :: 0 <= i < |segs| ==> |segs[i]| == |slots[i]|
    requires ScanCodes(s, ts, segs, codes)
    ensures ParseScan(s, ts, slots, n, ScanBytes(codes, n, [255, m] + tail))
         == Complete(ScanTargets(s, segs, slots), At(m, tail))
    ensures Ample(s, ts, slots, n, ScanBytes(codes, n, [255, m] + tail))
    decreases |segs|
  {
    hide ParseSegment, SegmentBits, Accepted, IsSegment, Stuff, Payload, End, Unpack, Encodable, Readable, Fits,
      ValidJobs, ValidSlots, Targets;
    var end := [255, m] + tail;
    assert Fits(s, segs[0], slots[0]) && Accepted(s, ts, segs[0]);
    if |segs| == 1 {
      assert Stuff(codes[0]) + end == Stuff(codes[0]) + [255, m] + tail;
      OneSegment(s, ts, segs[0], slots[0], codes[0], m, tail);
    } else {
      OneSegment(s, ts, segs[0], slots[0], codes[0], 0xD0 + n % 8, ScanBytes(codes[1..], n + 1, end));
      ScanParsed(s, ts, segs[1..], slots[1..], codes[1..], n + 1, m, tail);
    }
  }
}
