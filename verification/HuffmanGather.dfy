/** The statistics pass and the output pass agree over whole scans: with tables generated
    from the gathered counts, no block of the same scan is refused. */
module HuffmanGather {
  import opened Powers
  import opened BitStreams
  import opened Coefficients
  import opened RestartGroups
  import opened HuffmanBlock
  import opened HuffmanScan
  import opened HuffmanSink
  import opened HuffmanStats
  import opened ProgressiveTokens
  import opened HuffmanScanEncoding

  // ---------------------------------------------------- which symbols a scan uses

  /** DC symbols are sizes; AC symbols have a size of at most 10 in the low bits. */
  predicate TokenFits(s: Scan, k: Token)
  {
    match k
    case DcSymbol(y) => UsesDc(s.mode) && y <= 15
    case AcSymbol(y) => UsesAc(s) && y < 256 && y % 16 <= MAX_COEF_BITS
    case Extra(_, _) => true
  }

  ghost predicate TokensFit(s: Scan, ks: seq<Token>)
  {
    forall i :: 0 <= i < |ks| ==> TokenFits(s, ks[i])
  }

  lemma FitAppend(s: Scan, a: seq<Token>, b: seq<Token>)
    requires TokensFit(s, a) && TokensFit(s, b)
    ensures TokensFit(s, a + b)
  {
    hide TokenFits;
  }

  lemma {:induction false} ZrlsFit(s: Scan, r: nat)
    requires UsesAc(s)
    ensures TokensFit(s, Zrls(r))
  {
    if r > 15 {
      ZrlsFit(s, r - 16);
      FitAppend(s, [AcSymbol(0xF0)], Zrls(r - 16));
    }
  }

  lemma ZrlTokensFit(s: Scan, r: nat, br: seq<bit>)
    requires UsesAc(s)
    ensures TokensFit(s, ZrlTokens(r, br))
  {
    if r > 15 {
      ZrlsFit(s, r - 16);
      FitAppend(s, BitTokens(br), Zrls(r - 16));
      FitAppend(s, [AcSymbol(0xF0)], BitTokens(br) + Zrls(r - 16));
    }
  }

  lemma CoefFits(s: Scan, r: nat, x: int)
    requires UsesAc(s) && r < 16 && Category(x) <= MAX_COEF_BITS
    ensures TokensFit(s, Coef(r, x))
  {
    hide Category;
  }

  predicate SmallEnough(refine: bool, c: seq<int>)
  {
    forall i :: 0 <= i < |c| ==> Fresh(refine, c[i]) ==> Category(c[i]) <= MAX_COEF_BITS
  }

  lemma {:induction false} FrontFits(s: Scan, refine: bool, c: seq<int>, r: nat, br: seq<bit>)
    requires UsesAc(s) && SmallEnough(refine, c)
    ensures TokensFit(s, FrontTokens(refine, c, r, br))
    decreases |c|
  {
    hide Category, ZrlTokens, Coef, BitTokens, TokenFits, Fresh;
    if c != [] {
      var d := c[1..];
      assert SmallEnough(refine, d);
      if c[0] == 0 {
        FrontFits(s, refine, d, r + 1, br);
      } else if Old(refine, c[0]) {
        FrontFits(s, refine, d, r % 16, LeftOver(r, br) + [Abs(c[0]) % 2]);
        ZrlTokensFit(s, r, br);
        FitAppend(s, ZrlTokens(r, br), FrontTokens(refine, d, r % 16, LeftOver(r, br) + [Abs(c[0]) % 2]));
      } else {
        FreshFits(s, refine, c, r, br);
      }
    }
  }

  lemma {:induction false} FreshFits(s: Scan, refine: bool, c: seq<int>, r: nat, br: seq<bit>)
    requires UsesAc(s) && SmallEnough(refine, c) && c != [] && c[0] != 0 && !Old(refine, c[0])
    ensures TokensFit(s, ZrlTokens(r, br)
                         + (Coef(r % 16, c[0]) + (BitTokens(LeftOver(r, br)) + FrontTokens(refine, c[1..], 0, []))))
    decreases |c|, 0
  {
    hide Category, ZrlTokens, Coef;
    var coef, bits, rest := Coef(r % 16, c[0]), BitTokens(LeftOver(r, br)), FrontTokens(refine, c[1..], 0, []);
    assert Fresh(refine, c[0]);
    assert SmallEnough(refine, c[1..]);
    FrontFits(s, refine, c[1..], 0, []);
    ZrlTokensFit(s, r, br);
    CoefFits(s, r % 16, c[0]);
    FitAppend(s, bits, rest);
    FitAppend(s, coef, bits + rest);
    FitAppend(s, ZrlTokens(r, br), coef + (bits + rest));
  }

  lemma EobFits(s: Scan, run: nat, x: seq<bit>)
    requires UsesAc(s) && run <= MAX_RUN
    ensures TokensFit(s, Eob(run, x))
  {
    if run > 0 {
      Pow2Small();
      Pow2Add(8, 7);
      LevelsLimit(run, 15);
      var n := Levels(run);
      var size := if n == 0 then [] else [Extra(run, n)];
      FitAppend(s, size, BitTokens(x));
      FitAppend(s, [AcSymbol(16 * n)], size + BitTokens(x));
    }
  }

  lemma BandFits(s: Scan, refine: bool, p: Pending, c: seq<int>)
    requires UsesAc(s) && SmallEnough(refine, c) && Within(p) && |c| <= 63
    ensures TokensFit(s, BandTokens(refine, p, c))
  {
    hide Category, FrontTokens, Eob, TokenFits, Fresh;
    var n, q := FrontLen(refine, c), BandTail(refine, p, c);
    assert SmallEnough(refine, c[..n]);
    PendingBounds(refine, p, c);
    EobFits(s, p.run, p.bits);
    FrontFits(s, refine, c[..n], 0, []);
    FitAppend(s, Eob(p.run, p.bits), FrontTokens(refine, c[..n], 0, []));
    EobFits(s, q.run, q.bits);
    FitAppend(s, BandFront(refine, p, c), if Full(q) then Eob(q.run, q.bits) else []);
  }

  lemma {:induction false} AcTokensFit(s: Scan, c: seq<int>, r: nat)
    requires SmallCoefs(c) && (c != [] || r > 0 ==> UsesAc(s))
    ensures TokensFit(s, AcTokens(c, r))
    decreases |c|
  {
    hide Category, Coef, TokenFits, Zrls;
    if c == [] {
      if r > 0 {
        ZeroFits(s);
      }
    } else {
      assert SmallCoefs(c[1..]);
      if c[0] == 0 {
        AcTokensFit(s, c[1..], r + 1);
      } else {
        AcTokensFit(s, c[1..], 0);
        ZrlsFit(s, r);
        CoefFits(s, r % 16, c[0]);
        FitAppend(s, Coef(r % 16, c[0]), AcTokens(c[1..], 0));
        FitAppend(s, Zrls(r), Coef(r % 16, c[0]) + AcTokens(c[1..], 0));
      }
    }
  }

  lemma ZeroFits(s: Scan)
    requires UsesAc(s)
    ensures TokenFits(s, AcSymbol(0))
  {
  }

  lemma DcFits(s: Scan, diff: int)
    requires UsesDc(s.mode) && Category(diff) <= 11
    ensures TokensFit(s, DcTokens(diff))
  {
    hide Category;
  }

  /** The symbols of a job are bytes, of the kinds its mode has tables for. */
  lemma JobFits(s: Scan, e: State, job: Job)
    requires ValidScan(s) && ValidState(s, e) && job.ci < s.comps && JobInRange(s, e, job)
    ensures TokensFit(s, JobTokens(s, e, job))
  {
    hide Category, DcTokens, AcTokens, BandTokens, TokenFits, BandOf, DcOf, Within;
    var c := BandOf(s, job.block);
    match s.mode
    case Sequential =>
      var diff := job.block[0] - e.last[job.ci];
      DcFits(s, diff);
      NoBand(s, job.block);
      AcTokensFit(s, c, 0);
      FitAppend(s, DcTokens(diff), AcTokens(c, 0));
    case DcFirst =>
      DcFits(s, DcOf(s, job.block) - e.last[job.ci]);
    case DcRefine =>
      ExtraFits(s, DcOf(s, job.block));
    case AcFirst =>
      BandFits(s, false, e.pending, c);
    case AcRefine =>
      RefinedSmall(c);
      BandFits(s, true, e.pending, c);
  }

  lemma NoBand(s: Scan, x: Zigzag)
    requires ValidScan(s)
    ensures s.mode == Sequential && s.se == 0 ==> BandOf(s, x) == []
  {
  }

  lemma ExtraFits(s: Scan, v: int)
    ensures TokensFit(s, [Extra(v, 1)])
  {
  }

  lemma RefinedSmall(c: seq<int>)
    ensures SmallEnough(true, c)
  {
    forall i | 0 <= i < |c| && Fresh(true, c[i])
      ensures Category(c[i]) <= MAX_COEF_BITS
    {
      assert Abs(c[i]) == 1 && Levels(1) == 0;
    }
  }

  ghost predicate TaggedFit(s: Scan, tks: seq<Tagged>)
  {
    forall i :: 0 <= i < |tks| ==> tks[i].ci < s.comps && TokenFits(s, tks[i].k)
  }

  lemma TagFits(s: Scan, ci: nat, ks: seq<Token>, rest: seq<Tagged>)
    requires ci < s.comps && TokensFit(s, ks) && TaggedFit(s, rest)
    ensures TaggedFit(s, Tag(ci, ks) + rest)
  {
    hide TokenFits;
  }

  lemma {:induction false} SegmentFits(s: Scan, e: State, jobs: seq<Job>)
    requires ValidScan(s) && ValidState(s, e) && (forall i :: 0 <= i < |jobs| ==> jobs[i].ci < s.comps)
    requires AllInRange(s, e, jobs)
    ensures TaggedFit(s, SegmentTagged(s, e, jobs))
    decreases |jobs|
  {
    hide JobTokens, AfterJob, JobInRange, Eob, TokenFits, Tag, Within;
    if jobs == [] {
      PendingFits(s, e);
      TagFits(s, 0, Eob(e.pending.run, e.pending.bits), []);
      var flush := Flush(e);
      assert [] + flush == flush && flush + [] == flush;
    } else {
      var next, ks := AfterJob(s, e, jobs[0]), JobTokens(s, e, jobs[0]);
      SegmentFits(s, next, jobs[1..]);
      JobFits(s, e, jobs[0]);
      TagFits(s, jobs[0].ci, ks, SegmentTagged(s, next, jobs[1..]));
      Regroup(Tag(jobs[0].ci, ks), JobsTagged(s, next, jobs[1..]), Flush(AfterJobs(s, next, jobs[1..])));
    }
  }

  lemma PendingFits(s: Scan, e: State)
    requires ValidScan(s) && ValidState(s, e)
    ensures TokensFit(s, Eob(e.pending.run, e.pending.bits))
  {
    if IsAc(s.mode) {
      EobFits(s, e.pending.run, e.pending.bits);
    }
  }

  // ------------------------------------------------------------ generated tables

  /** Each component's tables were generated from the counts of its table numbers. */
  ghost predicate Generated(s: Scan, ts: seq<CompTables>, dcCounts: seq<seq<nat>>, acCounts: seq<seq<nat>>,
                            dcTbl: seq<nat>, acTbl: seq<nat>)
  {
    && |ts| == |dcTbl| == |acTbl| == s.comps && |dcCounts| == |acCounts| == NUM_HUFF_TBLS
    && (forall t :: 0 <= t < NUM_HUFF_TBLS ==> |dcCounts[t]| == |acCounts[t]| == 257)
    && forall ci :: 0 <= ci < s.comps ==>
         && dcTbl[ci] < NUM_HUFF_TBLS && acTbl[ci] < NUM_HUFF_TBLS && Shaped(ts[ci])
         && (UsesDc(s.mode) ==> GeneratedFor(dcCounts[dcTbl[ci]][..256], ts[ci].dcTable, ts[ci].dc))
         && (UsesAc(s) ==> GeneratedFor(acCounts[acTbl[ci]][..256], ts[ci].acTable, ts[ci].ac))
  }

  /** A symbol that was counted has a code in the generated table. */
  lemma OneHasCode(s: Scan, ts: seq<CompTables>, total: seq<Tagged>, dcCounts: seq<seq<nat>>, acCounts: seq<seq<nat>>,
                   dcTbl: seq<nat>, acTbl: seq<nat>, i: nat)
    requires Generated(s, ts, dcCounts, acCounts, dcTbl, acTbl) && i < |total|
    requires Counted(dcCounts, dcTbl, total, true) && Counted(acCounts, acTbl, total, false)
    requires total[i].ci < s.comps && TokenFits(s, total[i].k)
    ensures HasOne(ts, total[i])
  {
    hide GeneratedFor, Occurs;
    var ci := total[i].ci;
    match total[i].k
    case DcSymbol(y) =>
      OccursOnce(total, dcTbl, i);
      assert CountedIn(dcCounts[dcTbl[ci]], dcTbl, total, true, dcTbl[ci]);
      assert total[i].k == Symbol(true, y);
      CountedHasCode(dcCounts[dcTbl[ci]][..256], ts[ci].dcTable, ts[ci].dc, y);
    case AcSymbol(y) =>
      OccursOnce(total, acTbl, i);
      assert CountedIn(acCounts[acTbl[ci]], acTbl, total, false, acTbl[ci]);
      assert total[i].k == Symbol(false, y);
      CountedHasCode(acCounts[acTbl[ci]][..256], ts[ci].acTable, ts[ci].ac, y);
    case Extra(_, _) =>
  }

  lemma TotalHasCodes(s: Scan, ts: seq<CompTables>, total: seq<Tagged>, dcCounts: seq<seq<nat>>,
                      acCounts: seq<seq<nat>>, dcTbl: seq<nat>, acTbl: seq<nat>)
    requires Generated(s, ts, dcCounts, acCounts, dcTbl, acTbl) && TaggedFit(s, total)
    requires Counted(dcCounts, dcTbl, total, true) && Counted(acCounts, acTbl, total, false)
    ensures HaveAll(ts, total)
  {
    hide Generated, Counted, TokenFits, HasOne;
    forall i | 0 <= i < |total|
      ensures HasOne(ts, total[i])
    {
      OneHasCode(s, ts, total, dcCounts, acCounts, dcTbl, acTbl, i);
    }
  }

  lemma {:induction false} AllFit(s: Scan, segs: seq<seq<Job>>)
    requires ValidScan(s) && (forall i, j :: 0 <= i < |segs| && 0 <= j < |segs[i]| ==> segs[i][j].ci < s.comps)
    requires forall i :: 0 <= i < |segs| ==> AllInRange(s, Start(s), segs[i])
    ensures TaggedFit(s, AllTagged(s, segs))
  {
    hide SegmentTagged, AllInRange, TokenFits;
    if segs != [] {
      var init, last := segs[..|segs| - 1], segs[|segs| - 1];
      AllFit(s, init);
      SegmentFits(s, Start(s), last);
    }
  }

  lemma {:induction false} PartsHaveCodes(s: Scan, ts: seq<CompTables>, segs: seq<seq<Job>>, i: nat)
    requires ValidScan(s) && (forall i, j :: 0 <= i < |segs| && 0 <= j < |segs[i]| ==> segs[i][j].ci < s.comps)
    requires HaveAll(ts, AllTagged(s, segs)) && i < |segs|
    ensures HaveAll(ts, SegmentTagged(s, Start(s), segs[i]))
    decreases |segs|
  {
    hide SegmentTagged, HaveAll;
    var init, last := segs[..|segs| - 1], segs[|segs| - 1];
    TaggedAppend(ts, AllTagged(s, init), SegmentTagged(s, Start(s), last));
    if i < |init| {
      PartsHaveCodes(s, ts, init, i);
    }
  }

  /** The scan whose statistics were gathered is accepted with the generated tables. */
  lemma GatheredAccepted(s: Scan, ts: seq<CompTables>, segs: seq<seq<Job>>, dcCounts: seq<seq<nat>>,
                         acCounts: seq<seq<nat>>, dcTbl: seq<nat>, acTbl: seq<nat>)
    requires ValidScan(s) && AllValidJobs(s, segs) && Generated(s, ts, dcCounts, acCounts, dcTbl, acTbl)
    requires forall i, j :: 0 <= i < |segs| && 0 <= j < |segs[i]| ==> segs[i][j].ci < s.comps
    requires forall i :: 0 <= i < |segs| ==> AllInRange(s, Start(s), segs[i])
    requires Counted(dcCounts, dcTbl, AllTagged(s, segs), true) && Counted(acCounts, acTbl, AllTagged(s, segs), false)
    ensures AllAccepted(s, ts, segs)
  {
    hide SegmentTagged, HaveAll, AllInRange, Counted, Generated, AllTagged;
    AllFit(s, segs);
    TotalHasCodes(s, ts, AllTagged(s, segs), dcCounts, acCounts, dcTbl, acTbl);
    forall i | 0 <= i < |segs|
      ensures Accepted(s, ts, segs[i])
    {
      PartsHaveCodes(s, ts, segs, i);
    }
  }

  // -------------------------------------------------- no MCU is refused on the way

  /** Everything in the segments can be taken in, by a pass of either kind. */
  ghost predicate AllTaken(s: Scan, gather: bool, ts: seq<CompTables>, segs: seq<seq<Job>>)
    requires ValidScan(s) && AllValidJobs(s, segs)
  {
    forall i :: 0 <= i < |segs| ==> TakenOne(s, gather, ts, segs[i])
  }

  ghost predicate TakenOne(s: Scan, gather: bool, ts: seq<CompTables>, seg: seq<Job>)
    requires ValidScan(s) && ValidJobs(s, seg)
  {
    AllInRange(s, Start(s), seg) && (gather || HaveAll(ts, SegmentTagged(s, Start(s), seg)))
  }

  lemma TakenIs(s: Scan, ts: seq<CompTables>, segs: seq<seq<Job>>)
    requires ValidScan(s) && AllValidJobs(s, segs)
    ensures AllTaken(s, false, ts, segs) <==> AllAccepted(s, ts, segs)
    ensures AllTaken(s, true, ts, segs) <==> forall i :: 0 <= i < |segs| ==> AllInRange(s, Start(s), segs[i])
  {
    hide HaveAll, SegmentTagged, AllInRange, IsJcoef;
    forall i | 0 <= i < |segs|
      ensures ValidJobs(s, segs[i])
      ensures TakenOne(s, false, ts, segs[i]) <==> Accepted(s, ts, segs[i])
      ensures TakenOne(s, true, ts, segs[i]) <==> AllInRange(s, Start(s), segs[i])
    {
    }
  }

  lemma GoodOfTaken(s: Scan, gather: bool, ts: seq<CompTables>, seg: seq<Job>)
    requires ValidScan(s) && ValidJobs(s, seg) && TakenOne(s, gather, ts, seg)
    ensures Good(s, gather, ts, seg)
  {
    hide HaveAll, JobsTagged, AfterJobs, Flush, AllInRange;
    TaggedAppend(ts, JobsTagged(s, Start(s), seg), Flush(AfterJobs(s, Start(s), seg)));
  }

  lemma TakenGoing(s: Scan, gather: bool, ts: seq<CompTables>, segs: seq<seq<Job>>)
    requires ValidScan(s) && AllValidJobs(s, segs) && segs != [] && AllTaken(s, gather, ts, segs)
    ensures Going(s, gather, ts, segs)
  {
    hide HaveAll, SegmentTagged, AllInRange, Good, ValidJobs;
    assert forall i :: 0 <= i < |segs| ==> TakenOne(s, gather, ts, segs[i]);
    GoodOfTaken(s, gather, ts, segs[|segs| - 1]);
  }

  /** If the segments can be sent with one MCU more, they can be sent without. */
  lemma GoingBack(s: Scan, gather: bool, ts: seq<CompTables>, mcus: seq<seq<Job>>, mcu: seq<Job>, interval: nat)
    requires ValidScan(s) && AllValidJobs(s, Segments(mcus + [mcu], interval))
    requires Going(s, gather, ts, Segments(mcus + [mcu], interval))
    ensures AllValidJobs(s, Segments(mcus, interval)) && Going(s, gather, ts, Segments(mcus, interval))
  {
    hide HaveAll, SegmentTagged, AllInRange, Good, ValidJobs, Segments, LastCount;
    SegmentsSnoc(mcus, mcu, interval);
    var segs, more := Segments(mcus, interval), Segments(mcus + [mcu], interval);
    var n := |segs| - 1;
    assert forall i :: 0 <= i < n ==> segs[i] == more[i];
    if 0 < interval == LastCount(|mcus|, interval) {
      assert more[n] == segs[n];
      assert ValidJobs(s, more[n]);
      GoodOfTaken(s, gather, ts, segs[n]);
    } else {
      assert more[n] == segs[n] + mcu;
      assert ValidJobs(s, more[n]);
      GoodPrefix(s, gather, ts, segs[n], mcu);
    }
    assert forall i :: 0 <= i < |segs| ==> ValidJobs(s, segs[i]);
  }

  /** When everything can be taken in, a pass gets through all MCUs: after any number of
      them, the next is not refused. */
  lemma {:induction false} NeverRefused(s: Scan, gather: bool, ts: seq<CompTables>, mcus: seq<seq<Job>>, k: nat,
                                        interval: nat)
    requires ValidScan(s) && AllValidJobs(s, Segments(mcus, interval)) && k <= |mcus|
    requires AllTaken(s, gather, ts, Segments(mcus, interval))
    ensures AllValidJobs(s, Segments(mcus[..k], interval)) && Going(s, gather, ts, Segments(mcus[..k], interval))
    decreases |mcus| - k
  {
    hide Going, AllTaken, AllValidJobs, Segments;
    if k == |mcus| {
      assert mcus[..k] == mcus;
      TakenGoing(s, gather, ts, Segments(mcus, interval));
    } else {
      NeverRefused(s, gather, ts, mcus, k + 1, interval);
      assert mcus[..k + 1] == mcus[..k] + [mcus[k]];
      GoingBack(s, gather, ts, mcus[..k], mcus[k], interval);
    }
  }
}
