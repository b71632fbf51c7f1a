/** Entropy-coded segments and whole scans of the arithmetic coder: all blocks of
    all MCUs, with restart markers between segments. */
module ArithSegment {
  import opened Powers
  import opened Bytes
  import opened Coefficients
  import opened IntervalCoder
  import opened ArithBinarization
  import opened ArithScan
  import opened RestartGroups

  // ---------------------------------------------------------- bins in use

  /** The decision is legal and uses one of the first bins of one of the areas. */
  predicate InBin(d: Decision, areas: set<Area>, dcBins: nat, acBins: nat)
  {
    LegalDecision(d) && (d.bin.Stat? ==> d.bin.area in areas && d.bin.i < if d.bin.area.DcArea? then dcBins else acBins)
  }

  ghost predicate InBins(ds: seq<Decision>, areas: set<Area>, dcBins: nat, acBins: nat)
  {
    forall i :: 0 <= i < |ds| ==> InBin(ds[i], areas, dcBins, acBins)
  }

  /** Room for a magnitude chain of categories up to `n` and its bits. */
  predicate TailFits(area: Area, base: nat, n: nat, dcBins: nat, acBins: nat)
  {
    && area.tbl < NUM_ARITH_TBLS && dcBins <= DC_STAT_BINS && acBins <= AC_STAT_BINS
    && base + n + 14 < if area.DcArea? then dcBins else acBins
  }

  lemma {:induction false} ChainBins(area: Area, base: nat, i: nat, v: nat, areas: set<Area>, dcBins: nat,
                                     acBins: nat)
    requires v > 0 && area in areas && TailFits(area, base, i + Levels(v), dcBins, acBins)
    ensures InBins(Chain(area, base, i, v), areas, dcBins, acBins)
    decreases v
  {
    if v / 2 != 0 {
      ChainBins(area, base, i + 1, v / 2, areas, dcBins, acBins);
    }
  }

  lemma {:induction false} LowBitsBins(bin: Bin, j: nat, v: nat, areas: set<Area>, dcBins: nat, acBins: nat)
    requires InBin(Decision(bin, 0), areas, dcBins, acBins)
    ensures InBins(LowBits(bin, j, v), areas, dcBins, acBins)
    decreases j
  {
    if j != 0 {
      LowBitsBins(bin, j - 1, v, areas, dcBins, acBins);
    }
  }

  lemma TailBins(area: Area, base: nat, i: nat, v: nat, n: nat, areas: set<Area>, dcBins: nat, acBins: nat)
    requires i <= 1 && Shift(v, i) > 0 && v < Pow2(n + 1) && area in areas
    requires TailFits(area, base, n, dcBins, acBins)
    ensures InBins(Tail(area, base, i, v), areas, dcBins, acBins)
  {
    LevelsHalved(i, v);
    LevelsLimit(v, n + 1);
    ChainBins(area, base, i, Shift(v, i), areas, dcBins, acBins);
    LowBitsBins(Stat(area, base + Levels(v) + 14), Levels(v), v, areas, dcBins, acBins);
  }

  lemma DcTailBins(tbl: nat, v: nat, n: nat, areas: set<Area>, acBins: nat)
    requires tbl < NUM_ARITH_TBLS && DcArea(tbl) in areas && 0 < n <= 30 && 0 < v < Pow2(n) && acBins <= AC_STAT_BINS
    ensures InBins(Tail(DcArea(tbl), 20, 0, v), areas, n + 34, acBins)
  {
    TailBins(DcArea(tbl), 20, 0, v, n - 1, areas, n + 34, acBins);
  }

  /** Differences up to 2^n in magnitude use the first n + 34 DC bins. */
  lemma DcDiffBins(tbl: nat, ctx: nat, diff: int, n: nat, areas: set<Area>, acBins: nat)
    requires tbl < NUM_ARITH_TBLS && DcArea(tbl) in areas && ctx <= 16 && 0 < n <= 30 && Abs(diff) <= Pow2(n)
    requires acBins <= AC_STAT_BINS
    ensures InBins(DcDiff(tbl, ctx, diff), areas, n + 34, acBins)
  {
    hide Tail, Pow2;
    if Abs(diff) > 1 {
      DcTailBins(tbl, Abs(diff) - 1, n, areas, acBins);
    }
  }

  lemma AcValueBins(tbl: nat, kx: nat, pos: nat, v: int, areas: set<Area>, dcBins: nat)
    requires tbl < NUM_ARITH_TBLS && AcArea(tbl) in areas && dcBins <= DC_STAT_BINS
    requires 0 < pos < 64 && 0 < Abs(v) <= 0x8000
    ensures InBins(AcValue(tbl, kx, pos, v), areas, dcBins, 245)
  {
    var m := Abs(v) - 1;
    Pow2Small();
    assert Shift(m, 1) == m / 2;
    if m / 2 != 0 {
      TailBins(AcArea(tbl), AcBase(kx, pos), 1, m, 14, areas, dcBins, 245);
    }
  }

  lemma {:induction false} AcRestBins(tbl: nat, kx: nat, pos: nat, c: seq<int>, areas: set<Area>, dcBins: nat)
    requires tbl < NUM_ARITH_TBLS && AcArea(tbl) in areas && pos + |c| < 64 && Codable(c) && dcBins <= DC_STAT_BINS
    ensures InBins(AcRest(tbl, kx, pos, c), areas, dcBins, 245)
    decreases |c|, 1
  {
    if c != [] && !Quiet(c) {
      AcRunBins(tbl, kx, pos, c, areas, dcBins);
    }
  }

  lemma {:induction false} AcRunBins(tbl: nat, kx: nat, pos: nat, c: seq<int>, areas: set<Area>, dcBins: nat)
    requires tbl < NUM_ARITH_TBLS && AcArea(tbl) in areas && pos + |c| < 64 && Codable(c) && dcBins <= DC_STAT_BINS
    requires !Quiet(c)
    ensures InBins(AcRun(tbl, kx, pos, c), areas, dcBins, 245)
    decreases |c|, 0
  {
    if c[0] == 0 {
      AcRunBins(tbl, kx, pos + 1, c[1..], areas, dcBins);
    } else {
      AcValueBins(tbl, kx, pos + 1, c[0], areas, dcBins);
      AcRestBins(tbl, kx, pos + 1, c[1..], areas, dcBins);
    }
  }

  lemma {:induction false} RefRestBins(tbl: nat, kex: nat, pos: nat, t: seq<int>, areas: set<Area>, dcBins: nat)
    requires tbl < NUM_ARITH_TBLS && AcArea(tbl) in areas && pos + |t| < 64 && dcBins <= DC_STAT_BINS
    ensures InBins(RefRest(tbl, kex, pos, t), areas, dcBins, 245)
    decreases |t|, 1
  {
    if t != [] && !Quiet(t) {
      RefRunBins(tbl, kex, pos, t, areas, dcBins);
    }
  }

  lemma {:induction false} RefRunBins(tbl: nat, kex: nat, pos: nat, t: seq<int>, areas: set<Area>, dcBins: nat)
    requires tbl < NUM_ARITH_TBLS && AcArea(tbl) in areas && pos + |t| < 64 && dcBins <= DC_STAT_BINS && !Quiet(t)
    ensures InBins(RefRun(tbl, kex, pos, t), areas, dcBins, 245)
    decreases |t|, 0
  {
    if t[0] == 0 {
      RefRunBins(tbl, kex, pos + 1, t[1..], areas, dcBins);
    } else {
      RefRestBins(tbl, kex, pos + 1, t[1..], areas, dcBins);
    }
  }

  /** DC predictions are values of the 16-bit coefficient type. */
  predicate CoefPred(s: Scan, p: Pred)
  {
    ValidPred(s, p) && forall i :: 0 <= i < |p.lastDc| ==> -0x8000 <= p.lastDc[i] < 0x8000
  }

  lemma BandCodable(s: Scan, x: Zigzag)
    requires ValidScan(s) && IsJcoef(x)
    ensures Codable(BandOf(s, x))
    ensures BandOf(s, x) != [] ==> BandStart(s) - 1 + |BandOf(s, x)| < 64
  {
    var c := BandOf(s, x);
    if s.mode == AcFirst || s.mode == AcRefine {
      forall i | 0 <= i < |c|
        ensures Abs(c[i]) <= 0x8000
      {
        assert c[i] == Point(x[s.ss + i], s.al);
        PointBounds(x[s.ss + i], s.al);
      }
    }
  }

  /** Statistics areas the scan uses, zeroed at a restart. */
  function Areas(s: Scan): set<Area>
  {
    (if s.mode == Sequential || s.mode == DcFirst
     then set i | 0 <= i < |s.comps| :: DcArea(s.comps[i].dcTbl) else {})
    + (if s.se != 0 then set i | 0 <= i < |s.comps| :: AcArea(s.comps[i].acTbl) else {})
  }

  lemma AreasIn(s: Scan, ci: nat)
    requires ValidScan(s) && ci < |s.comps|
    ensures s.mode == Sequential || s.mode == DcFirst ==> DcArea(s.comps[ci].dcTbl) in Areas(s)
    ensures s.se != 0 ==> AcArea(s.comps[ci].acTbl) in Areas(s)
  {
  }

  lemma DcBins(s: Scan, p: Pred, ci: nat, x: Zigzag)
    requires ValidScan(s) && CoefPred(s, p) && ci < |s.comps| && IsJcoef(x)
    requires s.mode == Sequential || s.mode == DcFirst
    ensures InBins(DcDecisions(s, p, ci, x), Areas(s), if DcInRange(s, p, ci, x) then 49 else 50, 245)
    ensures CoefPred(s, AfterBlock(s, p, ci, x))
  {
    hide Areas, DcDiff, ShiftDown, DcContext, InBins;
    AreasIn(s, ci);
    DcOfCoef(x[0], s.al);
    Pow2Small();
    var diff, n := DcOf(s, x) - p.lastDc[ci], if DcInRange(s, p, ci, x) then 15 else 16;
    DcDiffBins(s.comps[ci].dcTbl, p.ctx[ci], diff, n, Areas(s), 245);
  }

  lemma BandBins(s: Scan, ci: nat, x: Zigzag, dcBins: nat)
    requires ValidScan(s) && ci < |s.comps| && IsJcoef(x) && dcBins <= DC_STAT_BINS
    ensures InBins(BandDecisions(s, ci, x), Areas(s), dcBins, 245)
    ensures s.mode == AcRefine ==> InBins(RefineDecisions(s, ci, x), Areas(s), dcBins, 245)
  {
    hide Areas, RefRest, Codable, LastNonzero, Points;
    AreasIn(s, ci);
    BandCodable(s, x);
    var tbl, c := s.comps[ci].acTbl, BandOf(s, x);
    if c != [] {
      AcRestBins(tbl, s.cond.acK[tbl], BandStart(s) - 1, c, Areas(s), dcBins);
    }
    if s.mode == AcRefine {
      RefRestBins(tbl, LastNonzero(Points(x, s.al + 1), s.se), s.ss - 1, c, Areas(s), dcBins);
    }
  }

  /** Every decision for a block uses at most the first 49 DC bins and 245 AC
      bins of the scan's areas when the decoder accepts the DC difference, and 50 DC bins
      else. */
  lemma BlockBins(s: Scan, p: Pred, ci: nat, x: Zigzag)
    requires ValidScan(s) && CoefPred(s, p) && ci < |s.comps| && IsJcoef(x)
    ensures InBins(BlockDecisions(s, p, ci, x), Areas(s), if DcInRange(s, p, ci, x) then 49 else 50, 245)
    ensures LegalRun(BlockDecisions(s, p, ci, x))
    ensures CoefPred(s, AfterBlock(s, p, ci, x))
  {
    hide Areas, DcDecisions, BandDecisions, RefineDecisions, IsJcoef, DcInRange, AfterDc;
    if s.mode == Sequential || s.mode == DcFirst {
      DcBins(s, p, ci, x);
    }
    BandBins(s, ci, x, if DcInRange(s, p, ci, x) then 49 else 50);
  }

  // ------------------------------------------------------------- segments

  /** A block to code, and the place it is decoded into with what that holds. */
  datatype Job = Job(ci: nat, block: Zigzag)
  datatype Slot = Slot(ci: nat, held: Zigzag)

  /** The slots belong to the jobs and are one stage behind them. */
  ghost predicate Fits(s: Scan, job: Job, slot: Slot)
  {
    job.ci == slot.ci < |s.comps| && IsJcoef(job.block) && Before(s, job.block, slot.held)
  }

  ghost predicate AllFit(s: Scan, jobs: seq<Job>, slots: seq<Slot>)
  {
    |jobs| == |slots| && forall i :: 0 <= i < |jobs| ==> Fits(s, jobs[i], slots[i])
  }

  ghost predicate ValidJobs(s: Scan, jobs: seq<Job>)
  {
    forall i :: 0 <= i < |jobs| ==> jobs[i].ci < |s.comps| && IsJcoef(jobs[i].block)
  }

  ghost function JobDecisions(s: Scan, p: Pred, jobs: seq<Job>): (ds: seq<Decision>)
    requires ValidScan(s) && CoefPred(s, p) && ValidJobs(s, jobs)
    ensures LegalRun(ds)
    decreases |jobs|
  {
    if jobs == [] then []
    else
      BlockBins(s, p, jobs[0].ci, jobs[0].block);
      BlockDecisions(s, p, jobs[0].ci, jobs[0].block)
      + JobDecisions(s, AfterBlock(s, p, jobs[0].ci, jobs[0].block), jobs[1..])
  }

  ghost function AfterJobs(s: Scan, p: Pred, jobs: seq<Job>): (q: Pred)
    requires ValidScan(s) && CoefPred(s, p) && ValidJobs(s, jobs)
    ensures CoefPred(s, q)
    decreases |jobs|
  {
    if jobs == [] then p
    else
      BlockBins(s, p, jobs[0].ci, jobs[0].block);
      AfterJobs(s, AfterBlock(s, p, jobs[0].ci, jobs[0].block), jobs[1..])
  }

  /** Only scans that code DC differences change the prediction state. */
  lemma {:induction false} PredUnused(s: Scan, p: Pred, jobs: seq<Job>)
    requires ValidScan(s) && CoefPred(s, p) && ValidJobs(s, jobs)
    requires s.mode != Sequential && s.mode != DcFirst
    ensures AfterJobs(s, p, jobs) == p
    decreases |jobs|
  {
    if jobs != [] {
      PredUnused(s, p, jobs[1..]);
    }
  }

  lemma {:induction false} JobsSnoc(s: Scan, p: Pred, jobs: seq<Job>, job: Job)
    requires ValidScan(s) && CoefPred(s, p) && ValidJobs(s, jobs)
    requires job.ci < |s.comps| && IsJcoef(job.block)
    ensures ValidJobs(s, jobs + [job])
    ensures var q := AfterJobs(s, p, jobs);
      && JobDecisions(s, p, jobs + [job]) == JobDecisions(s, p, jobs) + BlockDecisions(s, q, job.ci, job.block)
      && AfterJobs(s, p, jobs + [job]) == AfterBlock(s, q, job.ci, job.block)
    decreases |jobs|
  {
    hide BlockDecisions, AfterBlock, IsJcoef, LegalRun;
    assert [job][0] == job;
    if jobs == [] {
      assert jobs + [job] == [job];
      BlockBins(s, p, job.ci, job.block);
      assert [job][1..] == [];
    } else {
      BlockBins(s, p, jobs[0].ci, jobs[0].block);
      assert (jobs + [job])[0] == jobs[0] && (jobs + [job])[1..] == jobs[1..] + [job];
      JobsSnoc(s, AfterBlock(s, p, jobs[0].ci, jobs[0].block), jobs[1..], job);
    }
  }

  /** All DC differences of the segment are in the decoder's range. */
  ghost predicate JobsInRange(s: Scan, p: Pred, jobs: seq<Job>)
    requires ValidScan(s) && CoefPred(s, p) && ValidJobs(s, jobs)
    decreases |jobs|
  {
    jobs == [] ||
    (BlockBins(s, p, jobs[0].ci, jobs[0].block);
     && DcInRange(s, p, jobs[0].ci, jobs[0].block)
     && JobsInRange(s, AfterBlock(s, p, jobs[0].ci, jobs[0].block), jobs[1..]))
  }

  /** Decoded blocks of a segment and the prediction state after them. */
  datatype Units = Units(blocks: seq<Zigzag>, pred: Pred)

  ghost predicate ValidSlots(s: Scan, slots: seq<Slot>)
  {
    forall i :: 0 <= i < |slots| ==> slots[i].ci < |s.comps|
  }

  ghost function ParseJobs(s: Scan, p: Pred, slots: seq<Slot>, k: Coder, code: seq<byte>)
    : (r: Parse<Units>)
    requires ValidScan(s) && ValidPred(s, p) && ValidCoder(k) && ValidSlots(s, slots)
    ensures ValidCoder(r.next) && (r.Got? ==> ValidPred(s, r.value.pred))
    decreases |slots|
  {
    if slots == [] then Got(Units([], p), k)
    else
      var unit := ParseBlock(s, p, slots[0].ci, slots[0].held, k, code);
      if unit.Bad? then Bad(unit.next)
      else
        var rest := ParseJobs(s, unit.value.pred, slots[1..], unit.next, code);
        if rest.Bad? then rest
        else Got(Units([unit.value.block] + rest.value.blocks, rest.value.pred), rest.next)
  }

  /** What the slots hold after the scan. */
  ghost function Targets(s: Scan, jobs: seq<Job>, slots: seq<Slot>): (r: seq<Zigzag>)
    requires |jobs| == |slots|
    ensures |r| == |jobs|
    ensures forall i :: 0 <= i < |jobs| ==> r[i] == Target(s, jobs[i].block, slots[i].held)
  {
    if jobs == [] then [] else
      [Target(s, jobs[0].block, slots[0].held)] + Targets(s, jobs[1..], slots[1..])
  }

  /** Any code in the interval the decisions lead to decodes to the blocks,
      exactly when the decoder accepts every DC difference. */
  lemma {:induction false} JobsParsed(s: Scan, p: Pred, jobs: seq<Job>, slots: seq<Slot>, k: Coder,
                                      code: seq<byte>)
    requires ValidScan(s) && CoefPred(s, p) && ValidCoder(k) && AllFit(s, jobs, slots)
    requires Leads(k, JobDecisions(s, p, jobs), code)
    ensures ParseJobs(s, p, slots, k, code).Got? <==> JobsInRange(s, p, jobs)
    ensures JobsInRange(s, p, jobs) ==>
              ParseJobs(s, p, slots, k, code)
              == Got(Units(Targets(s, jobs, slots), AfterJobs(s, p, jobs)),
                     Run(k, JobDecisions(s, p, jobs)))
    decreases |jobs|
  {
    hide Leads, Run, LegalRun, Contains, BlockDecisions, ParseBlock, Target, AfterBlock, Before,
      IsJcoef, DcInRange;
    if jobs == [] {
      RunNone(k);
    } else {
      var ci, x, b := jobs[0].ci, jobs[0].block, slots[0].held;
      BlockBins(s, p, ci, x);
      assert Fits(s, jobs[0], slots[0]);
      var ds, q := BlockDecisions(s, p, ci, x), AfterBlock(s, p, ci, x);
      LeadsSplit(k, ds, JobDecisions(s, q, jobs[1..]), code);
      BlockParsed(s, p, ci, x, b, k, code);
      if DcInRange(s, p, ci, x) {
        JobsParsed(s, q, jobs[1..], slots[1..], Run(k, ds), code);
      }
    }
  }

  // ---------------------------------------------------------------- scans

  /** Predictions at the start of a segment. */
  function StartPred(s: Scan): (p: Pred)
    ensures |s.comps| > 0 ==> CoefPred(s, p)
  {
    Pred(seq(|s.comps|, i => 0), seq(|s.comps|, i => 0))
  }

  ghost predicate ScanCodes(s: Scan, segs: seq<seq<Job>>, stats: Stats, codes: seq<seq<byte>>)
    requires ValidScan(s) && ValidStats(stats) && forall i :: 0 <= i < |segs| ==> ValidJobs(s, segs[i])
  {
    if segs == [] then codes == []
    else
      var end := Run(Coder(START, stats), JobDecisions(s, StartPred(s), segs[0]));
      ZeroAreasValid(end.stats, Areas(s));
      && codes != [] && IsCode(end.iv, codes[0])
      && ScanCodes(s, segs[1..], ZeroAreas(end.stats, Areas(s)), codes[1..])
  }

  /** What the decoder makes of a scan: the blocks of every segment and the input
      after the marker that ends it; or a bad code, a wrong restart marker or
      input that ends early. */
  datatype ScanResult = Complete(blocks: seq<seq<Zigzag>>, ending: Ending) | BadScan

  ghost function ParseScan(s: Scan, slots: seq<seq<Slot>>, stats: Stats, n: nat, input: seq<byte>)
    : ScanResult
    requires ValidScan(s) && ValidStats(stats) && slots != []
    requires forall i :: 0 <= i < |slots| ==> ValidSlots(s, slots[i])
    decreases |slots|
  {
    var seg := ParseJobs(s, StartPred(s), slots[0], Coder(START, stats), Payload(input));
    if seg.Bad? || End(input).Cut? then BadScan
    else if |slots| == 1 then Complete([seg.value.blocks], End(input))
    else if End(input).code != 0xD0 + n % 8 then BadScan
    else
      ZeroAreasValid(seg.next.stats, Areas(s));
      match ParseScan(s, slots[1..], ZeroAreas(seg.next.stats, Areas(s)), n + 1, End(input).rest)
      case Complete(blocks, ending) => Complete([seg.value.blocks] + blocks, ending)
      case BadScan => BadScan
  }

  ghost predicate ScanFits(s: Scan, segs: seq<seq<Job>>, slots: seq<seq<Slot>>)
  {
    |segs| == |slots| && forall i :: 0 <= i < |segs| ==> AllFit(s, segs[i], slots[i])
  }

  ghost function ScanTargets(s: Scan, segs: seq<seq<Job>>, slots: seq<seq<Slot>>): (r: seq<seq<Zigzag>>)
    requires ScanFits(s, segs, slots)
    ensures |r| == |segs|
    ensures forall i :: 0 <= i < |segs| ==> r[i] == Targets(s, segs[i], slots[i])
  {
    if segs == [] then [] else [Targets(s, segs[0], slots[0])] + ScanTargets(s, segs[1..], slots[1..])
  }

  lemma FitsValid(s: Scan, jobs: seq<Job>, slots: seq<Slot>)
    requires AllFit(s, jobs, slots)
    ensures ValidJobs(s, jobs) && ValidSlots(s, slots)
  {
    assert forall i :: 0 <= i < |slots| ==> Fits(s, jobs[i], slots[i]);
  }

  /** One segment read back from its place in the scan. */
  lemma SegmentParsed(s: Scan, jobs: seq<Job>, slots: seq<Slot>, stats: Stats, code: seq<byte>,
                      m: byte, tail: seq<byte>)
    requires ValidScan(s) && ValidStats(stats) && AllFit(s, jobs, slots) && ValidJobs(s, jobs)
    requires 0 < m < 255
    requires IsCode(Run(Coder(START, stats), JobDecisions(s, StartPred(s), jobs)).iv, code)
    ensures var input := Stuff(code) + [255, m] + tail;
      var seg := ParseJobs(s, StartPred(s), slots, Coder(START, stats), Payload(input));
      && End(input) == At(m, tail)
      && (seg.Got? <==> JobsInRange(s, StartPred(s), jobs))
      && (seg.Got? ==> seg.value.blocks == Targets(s, jobs, slots)
                       && seg.next == Run(Coder(START, stats), JobDecisions(s, StartPred(s), jobs)))
  {
    hide Run, JobDecisions, ParseJobs, JobsInRange, IsCode, Contains, Stuff, Payload, End, LegalRun,
      ValidStats;
    FitsValid(s, jobs, slots);
    var k, ds := Coder(START, stats), JobDecisions(s, StartPred(s), jobs);
    UnstuffStuff(code, m, tail);
    CodeInside(Run(k, ds).iv, code);
    JobsParsed(s, StartPred(s), jobs, slots, k, code);
  }

  ghost predicate ScanInRange(s: Scan, segs: seq<seq<Job>>)
    requires ValidScan(s) && forall i :: 0 <= i < |segs| ==> ValidJobs(s, segs[i])
  {
    forall i :: 0 <= i < |segs| ==> JobsInRange(s, StartPred(s), segs[i])
  }

  /** The scan round trip: from the codes of all segments, written with byte
      stuffing and restart markers, the decoder gets every covered coefficient
      at the scan's stage and stops at the marker that follows; it fails
      exactly when some DC difference exceeds 2^15 in magnitude. */
  lemma {:induction false} ScanParsed(s: Scan, segs: seq<seq<Job>>, slots: seq<seq<Slot>>, stats: Stats,
                                      codes: seq<seq<byte>>, n: nat, m: byte, tail: seq<byte>)
    requires ValidScan(s) && ValidStats(stats) && segs != [] && ScanFits(s, segs, slots)
    requires (forall i :: 0 <= i < |segs| ==> ValidJobs(s, segs[i])) && 0 < m < 255
    requires forall i :: 0 <= i < |slots| ==> ValidSlots(s, slots[i])
    requires ScanCodes(s, segs, stats, codes)
    ensures ParseScan(s, slots, stats, n, ScanBytes(codes, n, [255, m] + tail))
         == if ScanInRange(s, segs) then Complete(ScanTargets(s, segs, slots), At(m, tail)) else BadScan
    decreases |segs|
  {
    hide Run, JobDecisions, ParseJobs, JobsInRange, IsCode, Stuff, Payload, End, LegalRun, ZeroAreas,
      ValidStats, AllFit;
    var end := [255, m] + tail;
    var k, ds := Coder(START, stats), JobDecisions(s, StartPred(s), segs[0]);
    ZeroAreasValid(Run(k, ds).stats, Areas(s));
    var next := ZeroAreas(Run(k, ds).stats, Areas(s));
    if |segs| == 1 {
      assert codes[1..] == [];
      assert Stuff(codes[0]) + end == Stuff(codes[0]) + [255, m] + tail;
      SegmentParsed(s, segs[0], slots[0], stats, codes[0], m, tail);
    } else {
      assert codes[1..] != [];
      var rest := ScanBytes(codes[1..], n + 1, end);
      SegmentParsed(s, segs[0], slots[0], stats, codes[0], 0xD0 + n % 8, rest);
      ScanParsed(s, segs[1..], slots[1..], next, codes[1..], n + 1, m, tail);
      assert ScanInRange(s, segs) <==>
             JobsInRange(s, StartPred(s), segs[0]) && ScanInRange(s, segs[1..]) by {
        assert forall i :: 0 < i < |segs| ==> segs[i] == segs[1..][i - 1];
      }
    }
  }

  // ------------------------------------------------- a scan that is lost

  /** A sequential scan of one component, with the default conditioning. */
  const GREY: Scan :=
    Scan(Sequential, 0, 63, 0, [Comp(0, 0)],
         Conditioning(seq(NUM_ARITH_TBLS, i => 0), seq(NUM_ARITH_TBLS, i => 1), seq(NUM_ARITH_TBLS, i => 5)))

  function OnlyDc(dc: int): (x: Zigzag)
    ensures x[0] == dc && forall j :: 0 < j < 64 ==> x[j] == 0
  {
    seq(64, j => if j == 0 then dc else 0)
  }

  /** DC 16385 and then -16384: both fit in 16 bits, their difference does not. */
  ghost const JUMP: seq<Job> := [Job(0, OnlyDc(16385)), Job(0, OnlyDc(-16384))]

  ghost const EMPTY: seq<Slot> := [Slot(0, OnlyDc(0)), Slot(0, OnlyDc(0))]

  lemma JumpFits()
    ensures ValidScan(GREY) && AllFit(GREY, JUMP, EMPTY)
    ensures ValidJobs(GREY, JUMP) && !JobsInRange(GREY, StartPred(GREY), JUMP)
  {
    hide DcDecisions, BandDecisions, OnlyDc;
    assert JUMP[1..] == [JUMP[1]];
    assert Fits(GREY, JUMP[0], EMPTY[0]) && Fits(GREY, JUMP[1], EMPTY[1]);
    assert DcOf(GREY, OnlyDc(16385)) == 16385 && DcOf(GREY, OnlyDc(-16384)) == -16384;
  }

  /** What the encoder writes for these two blocks the decoder does not accept. */
  lemma JumpLost(stats: Stats, code: seq<byte>, m: byte, tail: seq<byte>)
    requires ValidStats(stats) && 0 < m < 255 && ValidScan(GREY) && ValidJobs(GREY, JUMP)
    requires IsCode(Run(Coder(START, stats), JobDecisions(GREY, StartPred(GREY), JUMP)).iv, code)
    ensures ValidSlots(GREY, EMPTY) && ParseScan(GREY, [EMPTY], stats, 0, Stuff(code) + [255, m] + tail) == BadScan
  {
    hide Run, JobDecisions, ParseJobs, JobsInRange, IsCode, Stuff, Payload, End, ValidStats, ValidJobs;
    JumpFits();
    SegmentParsed(GREY, JUMP, EMPTY, stats, code, m, tail);
  }
}
