/** Coding a scan changes the statistics areas of its components only: at a restart, which
    zeroes these, both sides are as they were at the start, whatever was coded before. */
module ArithAreas {
  import opened Powers
  import opened Bytes
  import opened Coefficients
  import opened IntervalCoder
  import opened ArithBinarization
  import opened ArithScan
  import opened ArithSegment
  import opened ProbabilityTable

  const FIXED_STATE: byte := 113     // fixed_bin, which the table keeps as it is

  /** Only bins of these areas differ. */
  ghost predicate Keeps(a: Stats, b: Stats, areas: set<Area>)
  {
    && Fixed in a && a.Keys == b.Keys && a[Fixed] == FIXED_STATE
    && forall x :: x in a && !(x.Stat? && x.area in areas) ==> b[x] == a[x]
  }

  predicate InArea(bin: Bin, areas: set<Area>)
  {
    bin.Stat? ==> bin.area in areas
  }

  lemma KeepsAll(k: Coder, areas: set<Area>)
    requires ValidCoder(k) && k.stats[Fixed] == FIXED_STATE
    ensures Keeps(k.stats, k.stats, areas)
  {
  }

  lemma KeepsOn(a: Stats, b: Stats, c: Stats, areas: set<Area>)
    requires Keeps(a, b, areas) && Keeps(b, c, areas)
    ensures Keeps(a, c, areas)
  {
  }

  lemma KeepsZeroed(a: Stats, b: Stats, areas: set<Area>)
    requires Keeps(a, b, areas)
    ensures ZeroAreas(a, areas) == ZeroAreas(b, areas) && b[Fixed] == FIXED_STATE
  {
  }

  lemma FixedStays(below: nat, isLps: bool)
    ensures IsBin(FIXED_STATE) && Adapt(FIXED_STATE, below, isLps) == FIXED_STATE
  {
    hide RowAt;
    LastRow();
  }

  lemma StepKeeps(k: Coder, d: Decision, areas: set<Area>)
    requires ValidCoder(k) && LegalDecision(d) && InArea(d.bin, areas) && k.stats[Fixed] == FIXED_STATE
    ensures Keeps(k.stats, Step(k, d).stats, areas)
  {
    hide Renorm, Narrow, Adapt, Qe, Mps, TakesUpper;
    FixedStays(k.iv.width - Qe(k.stats[d.bin]), d.bit != Mps(k.stats[d.bin]));
  }

  lemma ReadKeeps(k: Coder, bin: Bin, code: seq<byte>, areas: set<Area>)
    requires ValidCoder(k) && Legal(bin) && InArea(bin, areas) && k.stats[Fixed] == FIXED_STATE
    ensures Keeps(k.stats, Read(k, bin, code).1.stats, areas)
  {
    hide DecodedBit, Step;
    StepKeeps(k, Decision(bin, DecodedBit(k, bin, code)), areas);
  }

  // ---------------------------------------------------------------------- decoding

  lemma {:induction false} ChainKeeps(k: Coder, area: Area, base: nat, i: nat, code: seq<byte>, areas: set<Area>)
    requires ValidCoder(k) && RoomFor(area, base) && i < 15 && area in areas && k.stats[Fixed] == FIXED_STATE
    ensures Keeps(k.stats, ParseChain(k, area, base, i, code).next.stats, areas)
    decreases 15 - i
  {
    hide Read, Keeps, ValidStats;
    ReadKeeps(k, Stat(area, base + i), code, areas);
    var (bit, next) := Read(k, Stat(area, base + i), code);
    KeepsZeroed(k.stats, next.stats, areas);
    if bit != 0 && i + 1 != 15 {
      ChainKeeps(next, area, base, i + 1, code, areas);
      KeepsOn(k.stats, next.stats, ParseChain(next, area, base, i + 1, code).next.stats, areas);
    }
  }

  lemma {:induction false} LowBitsKeep(k: Coder, bin: Bin, j: nat, v: nat, code: seq<byte>, areas: set<Area>)
    requires ValidCoder(k) && Legal(bin) && InArea(bin, areas) && k.stats[Fixed] == FIXED_STATE
    ensures Keeps(k.stats, ParseLowBits(k, bin, j, v, code).1.stats, areas)
    decreases j
  {
    hide Read, Keeps, ValidStats, Legal;
    if j == 0 {
      KeepsAll(k, areas);
    } else {
      ReadKeeps(k, bin, code, areas);
      var (bit, next) := Read(k, bin, code);
      KeepsZeroed(k.stats, next.stats, areas);
      var w := if bit == 1 then v + Pow2(j - 1) else v;
      LowBitsKeep(next, bin, j - 1, w, code, areas);
      KeepsOn(k.stats, next.stats, ParseLowBits(next, bin, j - 1, w, code).1.stats, areas);
    }
  }

  lemma TailKeeps(k: Coder, area: Area, base: nat, i: nat, code: seq<byte>, areas: set<Area>)
    requires ValidCoder(k) && RoomFor(area, base) && i < 15 && area in areas && k.stats[Fixed] == FIXED_STATE
    ensures Keeps(k.stats, ParseTail(k, area, base, i, code).next.stats, areas)
  {
    hide Keeps, ValidStats, ParseChain, ParseLowBits, Pow2;
    ChainKeeps(k, area, base, i, code, areas);
    var chain := ParseChain(k, area, base, i, code);
    KeepsZeroed(k.stats, chain.next.stats, areas);
    if chain.Got? {
      var n := chain.value;
      LowBitsKeep(chain.next, Stat(area, base + n + 14), n, Pow2(n), code, areas);
      KeepsOn(k.stats, chain.next.stats,
              ParseLowBits(chain.next, Stat(area, base + n + 14), n, Pow2(n), code).1.stats, areas);
    }
  }

  lemma DcMagnitudeKeeps(k: Coder, tbl: nat, s: nat, code: seq<byte>, areas: set<Area>)
    requires ValidCoder(k) && tbl < NUM_ARITH_TBLS && s < 20 && DcArea(tbl) in areas && k.stats[Fixed] == FIXED_STATE
    ensures Keeps(k.stats, ParseDcMagnitude(k, tbl, s, code).next.stats, areas)
  {
    hide Read, Keeps, ValidStats, ParseTail;
    ReadKeeps(k, Stat(DcArea(tbl), s), code, areas);
    var (bit, k1) := Read(k, Stat(DcArea(tbl), s), code);
    KeepsZeroed(k.stats, k1.stats, areas);
    if bit != 0 {
      TailKeeps(k1, DcArea(tbl), 20, 0, code, areas);
      KeepsOn(k.stats, k1.stats, ParseTail(k1, DcArea(tbl), 20, 0, code).next.stats, areas);
    }
  }

  lemma DcDiffKeeps(k: Coder, tbl: nat, ctx: nat, code: seq<byte>, areas: set<Area>)
    requires ValidCoder(k) && tbl < NUM_ARITH_TBLS && ctx <= 16 && DcArea(tbl) in areas
    requires k.stats[Fixed] == FIXED_STATE
    ensures Keeps(k.stats, ParseDcDiff(k, tbl, ctx, code).next.stats, areas)
  {
    hide Read, Keeps, ValidStats, ParseDcMagnitude;
    ReadKeeps(k, Stat(DcArea(tbl), ctx), code, areas);
    var (bit, k1) := Read(k, Stat(DcArea(tbl), ctx), code);
    KeepsZeroed(k.stats, k1.stats, areas);
    if bit != 0 {
      ReadKeeps(k1, Stat(DcArea(tbl), ctx + 1), code, areas);
      var (sign, k2) := Read(k1, Stat(DcArea(tbl), ctx + 1), code);
      KeepsZeroed(k1.stats, k2.stats, areas);
      DcMagnitudeKeeps(k2, tbl, ctx + 2 + sign, code, areas);
      KeepsOn(k1.stats, k2.stats, ParseDcMagnitude(k2, tbl, ctx + 2 + sign, code).next.stats, areas);
      KeepsOn(k.stats, k1.stats, ParseDcMagnitude(k2, tbl, ctx + 2 + sign, code).next.stats, areas);
    }
  }

  lemma AcValueKeeps(k: Coder, tbl: nat, kx: nat, pos: nat, code: seq<byte>, areas: set<Area>)
    requires ValidCoder(k) && tbl < NUM_ARITH_TBLS && 0 < pos < 64 && AcArea(tbl) in areas
    requires k.stats[Fixed] == FIXED_STATE
    ensures Keeps(k.stats, ParseAcValue(k, tbl, kx, pos, code).next.stats, areas)
  {
    hide Read, Keeps, ValidStats, ParseTail;
    var bin := Stat(AcArea(tbl), 3 * (pos - 1) + 2);
    ReadKeeps(k, Fixed, code, areas);
    var (sign, k1) := Read(k, Fixed, code);
    KeepsZeroed(k.stats, k1.stats, areas);
    ReadKeeps(k1, bin, code, areas);
    var (bit, k2) := Read(k1, bin, code);
    KeepsZeroed(k1.stats, k2.stats, areas);
    KeepsOn(k.stats, k1.stats, k2.stats, areas);
    if bit != 0 {
      ReadKeeps(k2, bin, code, areas);
      var (more, k3) := Read(k2, bin, code);
      KeepsZeroed(k2.stats, k3.stats, areas);
      KeepsOn(k.stats, k2.stats, k3.stats, areas);
      if more != 0 {
        TailKeeps(k3, AcArea(tbl), AcBase(kx, pos), 1, code, areas);
        KeepsOn(k.stats, k3.stats, ParseTail(k3, AcArea(tbl), AcBase(kx, pos), 1, code).next.stats, areas);
      }
    }
  }

  lemma {:induction false} AcRestKeeps(k: Coder, tbl: nat, kx: nat, pos: nat, n: nat, code: seq<byte>, areas: set<Area>)
    requires ValidCoder(k) && tbl < NUM_ARITH_TBLS && pos + n < 64 && AcArea(tbl) in areas
    requires k.stats[Fixed] == FIXED_STATE
    ensures Keeps(k.stats, ParseAcRest(k, tbl, kx, pos, n, code).next.stats, areas)
    decreases n, 1
  {
    hide Read, Keeps, ValidStats, ParseAcRun;
    if n == 0 {
      KeepsAll(k, areas);
    } else {
      ReadKeeps(k, Stat(AcArea(tbl), 3 * pos), code, areas);
      var (bit, k1) := Read(k, Stat(AcArea(tbl), 3 * pos), code);
      KeepsZeroed(k.stats, k1.stats, areas);
      if bit != 1 {
        AcRunKeeps(k1, tbl, kx, pos, n, code, areas);
        KeepsOn(k.stats, k1.stats, ParseAcRun(k1, tbl, kx, pos, n, code).next.stats, areas);
      }
    }
  }

  lemma {:induction false} AcRunKeeps(k: Coder, tbl: nat, kx: nat, pos: nat, n: nat, code: seq<byte>, areas: set<Area>)
    requires ValidCoder(k) && tbl < NUM_ARITH_TBLS && 0 < n && pos + n < 64 && AcArea(tbl) in areas
    requires k.stats[Fixed] == FIXED_STATE
    ensures Keeps(k.stats, ParseAcRun(k, tbl, kx, pos, n, code).next.stats, areas)
    decreases n, 0
  {
    hide Read, Keeps, ValidStats, ParseAcValue, ParseAcRest;
    ReadKeeps(k, Stat(AcArea(tbl), 3 * pos + 1), code, areas);
    var (bit, k1) := Read(k, Stat(AcArea(tbl), 3 * pos + 1), code);
    KeepsZeroed(k.stats, k1.stats, areas);
    if bit == 1 {
      AcValueKeeps(k1, tbl, kx, pos + 1, code, areas);
      var value := ParseAcValue(k1, tbl, kx, pos + 1, code);
      KeepsZeroed(k1.stats, value.next.stats, areas);
      KeepsOn(k.stats, k1.stats, value.next.stats, areas);
      if value.Got? {
        AcRestKeeps(value.next, tbl, kx, pos + 1, n - 1, code, areas);
        KeepsOn(k.stats, value.next.stats, ParseAcRest(value.next, tbl, kx, pos + 1, n - 1, code).next.stats, areas);
      }
    } else if n != 1 {
      AcRunKeeps(k1, tbl, kx, pos + 1, n - 1, code, areas);
      KeepsOn(k.stats, k1.stats, ParseAcRun(k1, tbl, kx, pos + 1, n - 1, code).next.stats, areas);
    }
  }

  lemma {:induction false} RefRestKeeps(k: Coder, tbl: nat, kex: nat, pos: nat, b: seq<int>, p1: nat, code: seq<byte>,
                                        areas: set<Area>)
    requires ValidCoder(k) && tbl < NUM_ARITH_TBLS && pos + |b| < 64 && AcArea(tbl) in areas
    requires k.stats[Fixed] == FIXED_STATE
    ensures Keeps(k.stats, ParseRefRest(k, tbl, kex, pos, b, p1, code).next.stats, areas)
    decreases |b|, 1
  {
    hide Read, Keeps, ValidStats, ParseRefRun;
    if b == [] {
      KeepsAll(k, areas);
    } else if kex <= pos {
      ReadKeeps(k, Stat(AcArea(tbl), 3 * pos), code, areas);
      var (bit, k1) := Read(k, Stat(AcArea(tbl), 3 * pos), code);
      KeepsZeroed(k.stats, k1.stats, areas);
      if bit != 1 {
        RefRunKeeps(k1, tbl, kex, pos, b, p1, code, areas);
        KeepsOn(k.stats, k1.stats, ParseRefRun(k1, tbl, kex, pos, b, p1, code).next.stats, areas);
      }
    } else {
      RefRunKeeps(k, tbl, kex, pos, b, p1, code, areas);
    }
  }

  lemma {:induction false} RefRunKeeps(k: Coder, tbl: nat, kex: nat, pos: nat, b: seq<int>, p1: nat, code: seq<byte>,
                                       areas: set<Area>)
    requires ValidCoder(k) && tbl < NUM_ARITH_TBLS && b != [] && pos + |b| < 64 && AcArea(tbl) in areas
    requires k.stats[Fixed] == FIXED_STATE
    ensures Keeps(k.stats, ParseRefRun(k, tbl, kex, pos, b, p1, code).next.stats, areas)
    decreases |b|, 0
  {
    hide Read, Keeps, ValidStats, ParseRefRest, Corrected, Signed, ToCoef;
    var bin := Stat(AcArea(tbl), if b[0] != 0 then 3 * pos + 2 else 3 * pos + 1);
    ReadKeeps(k, bin, code, areas);
    var (bit, k1) := Read(k, bin, code);
    KeepsZeroed(k.stats, k1.stats, areas);
    if b[0] != 0 {
      RefRestKeeps(k1, tbl, kex, pos + 1, b[1..], p1, code, areas);
      KeepsOn(k.stats, k1.stats, ParseRefRest(k1, tbl, kex, pos + 1, b[1..], p1, code).next.stats, areas);
    } else if bit == 1 {
      ReadKeeps(k1, Fixed, code, areas);
      var (sign, k2) := Read(k1, Fixed, code);
      KeepsZeroed(k1.stats, k2.stats, areas);
      KeepsOn(k.stats, k1.stats, k2.stats, areas);
      RefRestKeeps(k2, tbl, kex, pos + 1, b[1..], p1, code, areas);
      KeepsOn(k.stats, k2.stats, ParseRefRest(k2, tbl, kex, pos + 1, b[1..], p1, code).next.stats, areas);
    } else if |b| != 1 {
      RefRunKeeps(k1, tbl, kex, pos + 1, b[1..], p1, code, areas);
      KeepsOn(k.stats, k1.stats, ParseRefRun(k1, tbl, kex, pos + 1, b[1..], p1, code).next.stats, areas);
    }
  }

  lemma BandKeeps(s: Scan, ci: nat, b: Zigzag, k: Coder, code: seq<byte>)
    requires ValidScan(s) && ci < |s.comps| && ValidCoder(k) && k.stats[Fixed] == FIXED_STATE
    ensures Keeps(k.stats, ParseBand(s, ci, b, k, code).next.stats, Areas(s))
  {
    hide Keeps, ValidStats, ParseAcRest, Areas, Overlay, Pow2;
    AreasIn(s, ci);
    var start := BandStart(s);
    if s.se < start {
      KeepsAll(k, Areas(s));
    } else {
      var tbl := s.comps[ci].acTbl;
      AcRestKeeps(k, tbl, s.cond.acK[tbl], start - 1, s.se + 1 - start, code, Areas(s));
    }
  }

  lemma DcKeeps(s: Scan, p: Pred, ci: nat, b: Zigzag, k: Coder, code: seq<byte>)
    requires ValidScan(s) && ValidPred(s, p) && ci < |s.comps| && ValidCoder(k) && k.stats[Fixed] == FIXED_STATE
    requires s.mode == Sequential || s.mode == DcFirst
    ensures Keeps(k.stats, ParseDc(s, p, ci, b, k, code).next.stats, Areas(s))
  {
    hide Keeps, ValidStats, ParseDcDiff, Areas, AfterDc, Pow2;
    AreasIn(s, ci);
    assert IsContext(p.ctx[ci]);
    DcDiffKeeps(k, s.comps[ci].dcTbl, p.ctx[ci], code, Areas(s));
  }

  lemma BlockKeeps(s: Scan, p: Pred, ci: nat, b: Zigzag, k: Coder, code: seq<byte>)
    requires ValidScan(s) && ValidPred(s, p) && ci < |s.comps| && ValidCoder(k) && k.stats[Fixed] == FIXED_STATE
    ensures Keeps(k.stats, ParseBlock(s, p, ci, b, k, code).next.stats, Areas(s))
  {
    hide Keeps, ValidStats, ParseDc, ParseBand, ParseRefRest, Areas, Read, OrBit, Pow2, LastNonzero, Replace;
    AreasIn(s, ci);
    match s.mode
    case Sequential =>
      DcKeeps(s, p, ci, b, k, code);
      var dc := ParseDc(s, p, ci, b, k, code);
      KeepsZeroed(k.stats, dc.next.stats, Areas(s));
      if dc.Got? {
        BandKeeps(s, ci, dc.value.block, dc.next, code);
        KeepsOn(k.stats, dc.next.stats, ParseBand(s, ci, dc.value.block, dc.next, code).next.stats, Areas(s));
      }
    case DcFirst => DcKeeps(s, p, ci, b, k, code);
    case AcFirst => BandKeeps(s, ci, b, k, code);
    case DcRefine => ReadKeeps(k, Fixed, code, Areas(s));
    case AcRefine =>
      RefRestKeeps(k, s.comps[ci].acTbl, LastNonzero(b, s.se), s.ss - 1, b[s.ss..s.se + 1], Pow2(s.al), code, Areas(s));
  }

  /** Decoding a segment, or failing to, changes the scan's areas only. */
  lemma {:induction false} SegmentKeeps(s: Scan, p: Pred, slots: seq<Slot>, k: Coder, code: seq<byte>)
    requires ValidScan(s) && ValidPred(s, p) && ValidCoder(k) && ValidSlots(s, slots) && k.stats[Fixed] == FIXED_STATE
    ensures Keeps(k.stats, ParseJobs(s, p, slots, k, code).next.stats, Areas(s))
    decreases |slots|
  {
    hide Keeps, ValidStats, ParseBlock, Areas;
    if slots == [] {
      KeepsAll(k, Areas(s));
    } else {
      BlockKeeps(s, p, slots[0].ci, slots[0].held, k, code);
      var unit := ParseBlock(s, p, slots[0].ci, slots[0].held, k, code);
      KeepsZeroed(k.stats, unit.next.stats, Areas(s));
      if unit.Got? {
        SegmentKeeps(s, unit.value.pred, slots[1..], unit.next, code);
        KeepsOn(k.stats, unit.next.stats, ParseJobs(s, unit.value.pred, slots[1..], unit.next, code).next.stats,
                Areas(s));
      }
    }
  }

  // ---------------------------------------------------------------------- encoding

  lemma {:induction false} RunKeeps(k: Coder, ds: seq<Decision>, areas: set<Area>)
    requires ValidCoder(k) && LegalRun(ds) && k.stats[Fixed] == FIXED_STATE
    requires forall i :: 0 <= i < |ds| ==> InArea(ds[i].bin, areas)
    ensures Keeps(k.stats, Run(k, ds).stats, areas)
    decreases |ds|
  {
    hide Keeps, ValidStats, Step;
    if ds == [] {
      KeepsAll(k, areas);
    } else {
      StepKeeps(k, ds[0], areas);
      KeepsZeroed(k.stats, Step(k, ds[0]).stats, areas);
      RunKeeps(Step(k, ds[0]), ds[1..], areas);
      KeepsOn(k.stats, Step(k, ds[0]).stats, Run(k, ds).stats, areas);
    }
  }

  /** Encoding a segment changes the scan's areas only. */
  lemma {:induction false} JobsKeep(s: Scan, p: Pred, jobs: seq<Job>, k: Coder)
    requires ValidScan(s) && CoefPred(s, p) && ValidJobs(s, jobs) && ValidCoder(k) && k.stats[Fixed] == FIXED_STATE
    ensures Keeps(k.stats, Run(k, JobDecisions(s, p, jobs)).stats, Areas(s))
    decreases |jobs|
  {
    hide Keeps, ValidStats, Run, LegalRun, Areas, BlockDecisions, AfterBlock, IsJcoef, DcInRange;
    if jobs == [] {
      RunNone(k);
      KeepsAll(k, Areas(s));
    } else {
      var ci, x := jobs[0].ci, jobs[0].block;
      BlockBins(s, p, ci, x);
      var ds, q := BlockDecisions(s, p, ci, x), AfterBlock(s, p, ci, x);
      RunKeeps(k, ds, Areas(s));
      KeepsZeroed(k.stats, Run(k, ds).stats, Areas(s));
      JobsKeep(s, q, jobs[1..], Run(k, ds));
      RunAppend(k, ds, JobDecisions(s, q, jobs[1..]));
      KeepsOn(k.stats, Run(k, ds).stats, Run(k, JobDecisions(s, p, jobs)).stats, Areas(s));
    }
  }

  // ---------------------------------------------------------------------- restarts

  /** The bins as start_pass sets them: the scan's areas zeroed, the fixed bin as ever. */
  ghost predicate Fresh(s: Scan, stats: Stats)
  {
    Fixed in stats && stats[Fixed] == FIXED_STATE && ZeroAreas(stats, Areas(s)) == stats
  }

  /** A component of the scan uses the area: for DC unless the scan refines DC or has none, for AC if
      the scan goes beyond coefficient 0. */
  predicate AreaUsed(s: Scan, area: Area)
  {
    if area.DcArea? then
      (s.mode == Sequential || s.mode == DcFirst) && exists i :: 0 <= i < |s.comps| && s.comps[i].dcTbl == area.tbl
    else s.se != 0 && exists i :: 0 <= i < |s.comps| && s.comps[i].acTbl == area.tbl
  }

  /** A restart zeroes exactly the bins of the areas that are used. */
  lemma ZeroedSpelled(s: Scan, stats: Stats)
    ensures ZeroAreas(stats, Areas(s)).Keys == stats.Keys
    ensures forall b :: b in stats ==>
              ZeroAreas(stats, Areas(s))[b] == if b.Stat? && AreaUsed(s, b.area) then 0 else stats[b]
  {
    forall b | b in stats && b.Stat?
      ensures b.area in Areas(s) <==> AreaUsed(s, b.area)
    {
      match b.area
      case DcArea(t) =>
        if i :| 0 <= i < |s.comps| && s.comps[i].dcTbl == t {
          assert DcArea(s.comps[i].dcTbl) == b.area;
        }
      case AcArea(t) =>
        if i :| 0 <= i < |s.comps| && s.comps[i].acTbl == t {
          assert AcArea(s.comps[i].acTbl) == b.area;
        }
    }
  }

  /** A restart sets the encoder's bins back. */
  lemma EncoderRestarts(s: Scan, jobs: seq<Job>, stats: Stats)
    requires ValidScan(s) && ValidStats(stats) && ValidJobs(s, jobs) && Fresh(s, stats)
    ensures ZeroAreas(Run(Coder(START, stats), JobDecisions(s, StartPred(s), jobs)).stats, Areas(s)) == stats
  {
    hide Keeps, ValidStats, Run, JobDecisions, LegalRun, Areas, ZeroAreas;
    JobsKeep(s, StartPred(s), jobs, Coder(START, stats));
    KeepsZeroed(stats, Run(Coder(START, stats), JobDecisions(s, StartPred(s), jobs)).stats, Areas(s));
  }

  /** A restart sets the decoder's bins back, whatever it made of the segment. */
  lemma DecoderRestarts(s: Scan, slots: seq<Slot>, stats: Stats, code: seq<byte>)
    requires ValidScan(s) && ValidStats(stats) && ValidSlots(s, slots) && Fresh(s, stats)
    ensures ZeroAreas(ParseJobs(s, StartPred(s), slots, Coder(START, stats), code).next.stats, Areas(s)) == stats
  {
    hide Keeps, ValidStats, ParseJobs, Areas, ZeroAreas;
    SegmentKeeps(s, StartPred(s), slots, Coder(START, stats), code);
    KeepsZeroed(stats, ParseJobs(s, StartPred(s), slots, Coder(START, stats), code).next.stats, Areas(s));
  }

  /** The code of each segment is one for its blocks alone. */
  lemma {:induction false} CodesAlone(s: Scan, segs: seq<seq<Job>>, stats: Stats, codes: seq<seq<byte>>, i: nat)
    requires ValidScan(s) && ValidStats(stats) && (forall k :: 0 <= k < |segs| ==> ValidJobs(s, segs[k]))
    requires ScanCodes(s, segs, stats, codes) && Fresh(s, stats) && i < |segs|
    ensures i < |codes|
         && IsCode(Run(Coder(START, stats), JobDecisions(s, StartPred(s), segs[i])).iv, codes[i])
    decreases |segs|
  {
    hide Run, JobDecisions, IsCode, ZeroAreas, ValidStats, Areas, Fresh, ValidJobs;
    EncoderRestarts(s, segs[0], stats);
    if i != 0 {
      CodesAlone(s, segs[1..], stats, codes[1..], i - 1);
    }
  }
}
