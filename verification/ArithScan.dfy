/** Arithmetic coding of whole segments of a scan: which decisions each block
    gives in each coding mode, and what the decoder makes of any code. */
module ArithScan {
  import opened Powers
  import opened Bytes
  import opened Coefficients
  import opened IntervalCoder
  import opened ArithBinarization

  datatype Comp = Comp(dcTbl: nat, acTbl: nat)

  /** Conditioning values L, U and Kx of the DAC marker, per table. */
  datatype Conditioning = Conditioning(dcL: seq<nat>, dcU: seq<nat>, acK: seq<nat>)

  datatype Mode = Sequential | DcFirst | AcFirst | DcRefine | AcRefine

  /** Parameters of a scan; `se` is the end of the AC band, 0 when there is none. */
  datatype Scan = Scan(mode: Mode, ss: nat, se: nat, al: nat, comps: seq<Comp>,
                       cond: Conditioning)

  predicate ValidScan(s: Scan)
  {
    && 1 <= |s.comps| <= 4 && s.se < 64 && s.al <= 13
    && (forall i :: 0 <= i < |s.comps| ==>
          s.comps[i].dcTbl < NUM_ARITH_TBLS && s.comps[i].acTbl < NUM_ARITH_TBLS)
    && |s.cond.dcL| == |s.cond.dcU| == |s.cond.acK| == NUM_ARITH_TBLS
    && (s.mode == Sequential ==> s.ss == 0 && s.al == 0)
    && (s.mode == DcFirst || s.mode == DcRefine ==> s.ss == s.se == 0)
    && (s.mode == AcFirst || s.mode == AcRefine ==> 0 < s.ss <= s.se)
  }

  /** DC prediction and conditioning context per component. */
  datatype Pred = Pred(lastDc: seq<int>, ctx: seq<nat>)

  predicate IsContext(ctx: nat)
  {
    ctx == 0 || ctx == 4 || ctx == 8 || ctx == 12 || ctx == 16
  }

  predicate ValidPred(s: Scan, p: Pred)
  {
    |p.lastDc| == |p.ctx| == |s.comps| && forall i :: 0 <= i < |p.ctx| ==> IsContext(p.ctx[i])
  }

  /** Section F.1.4.4.1.2: zero, small or large difference, by its category. */
  function DcContext(diff: int, lower: nat, upper: nat): (ctx: nat)
    ensures IsContext(ctx)
  {
    if diff == 0 then 0
    else
      var m := if Abs(diff) == 1 then 0 else Pow2(Levels(Abs(diff) - 1));
      if m < Pow2(lower) / 2 then 0
      else if m > Pow2(upper) / 2 then 12 + 4 * SignBit(diff)
      else 4 + 4 * SignBit(diff)
  }

  // ------------------------------------------------------------ one block

  function DcOf(s: Scan, x: Zigzag): int
  {
    ShiftDown(x[0], s.al)
  }

  function BandOf(s: Scan, x: Zigzag): (c: seq<int>)
    requires ValidScan(s)
    ensures s.mode != DcFirst && s.mode != DcRefine && 0 < s.se ==>
              |c| == s.se + 1 - (if s.mode == Sequential then 1 else s.ss)
  {
    if s.mode == Sequential && 0 < s.se then x[1..s.se + 1]
    else if s.mode == AcFirst || s.mode == AcRefine then Points(x[s.ss..s.se + 1], s.al)
    else []
  }

  function DcDecisions(s: Scan, p: Pred, ci: nat, x: Zigzag): seq<Decision>
    requires ValidScan(s) && ValidPred(s, p) && ci < |s.comps|
  {
    DcDiff(s.comps[ci].dcTbl, p.ctx[ci], DcOf(s, x) - p.lastDc[ci])
  }

  /** The AC decisions of a sequential or first-stage block. */
  function BandDecisions(s: Scan, ci: nat, x: Zigzag): seq<Decision>
    requires ValidScan(s) && ci < |s.comps|
  {
    var tbl := s.comps[ci].acTbl;
    AcRest(tbl, s.cond.acK[tbl], BandStart(s) - 1, BandOf(s, x))
  }

  function BandStart(s: Scan): (start: nat)
    ensures start > 0
  {
    if s.mode == Sequential || s.ss == 0 then 1 else s.ss
  }

  function RefineDecisions(s: Scan, ci: nat, x: Zigzag): seq<Decision>
    requires ValidScan(s) && s.mode == AcRefine && ci < |s.comps|
  {
    RefRest(s.comps[ci].acTbl, LastNonzero(Points(x, s.al + 1), s.se), s.ss - 1, BandOf(s, x))
  }

  /** The decisions for one block of component `ci`. */
  function BlockDecisions(s: Scan, p: Pred, ci: nat, x: Zigzag): seq<Decision>
    requires ValidScan(s) && ValidPred(s, p) && ci < |s.comps|
  {
    match s.mode
    case Sequential => DcDecisions(s, p, ci, x) + BandDecisions(s, ci, x)
    case DcFirst => DcDecisions(s, p, ci, x)
    case AcFirst => BandDecisions(s, ci, x)
    case DcRefine => [Decision(Fixed, DcOf(s, x) % 2)]
    case AcRefine => RefineDecisions(s, ci, x)
  }

  function AfterDc(s: Scan, p: Pred, ci: nat, diff: int): (r: Pred)
    requires ValidScan(s) && ValidPred(s, p) && ci < |s.comps|
    ensures ValidPred(s, r)
  {
    var tbl := s.comps[ci].dcTbl;
    Pred(p.lastDc[ci := p.lastDc[ci] + diff],
         p.ctx[ci := DcContext(diff, s.cond.dcL[tbl], s.cond.dcU[tbl])])
  }

  function AfterBlock(s: Scan, p: Pred, ci: nat, x: Zigzag): (r: Pred)
    requires ValidScan(s) && ValidPred(s, p) && ci < |s.comps|
    ensures ValidPred(s, r)
  {
    if s.mode == Sequential || s.mode == DcFirst
    then AfterDc(s, p, ci, DcOf(s, x) - p.lastDc[ci]) else p
  }

  /** Store the nonzero values `c`, scaled, at `at` and after. */
  function Overlay(b: Zigzag, at: nat, c: seq<int>, p1: nat): (r: Zigzag)
    requires at + |c| <= 64
    ensures forall j :: 0 <= j < 64 ==>
              r[j] == if at <= j < at + |c| && c[j - at] != 0 then ToCoef(c[j - at] * p1) else b[j]
  {
    seq(64, j requires 0 <= j < 64 =>
      if at <= j < at + |c| && c[j - at] != 0 then ToCoef(c[j - at] * p1) else b[j])
  }

  /** A decoded block and the prediction state after it. */
  datatype Unit = Unit(block: Zigzag, pred: Pred)

  ghost function ParseDc(s: Scan, p: Pred, ci: nat, b: Zigzag, k: Coder, code: seq<byte>)
    : (r: Parse<Unit>)
    requires ValidScan(s) && ValidPred(s, p) && ci < |s.comps| && ValidCoder(k)
    ensures ValidCoder(r.next) && (r.Got? ==> ValidPred(s, r.value.pred))
  {
    var diff := ParseDcDiff(k, s.comps[ci].dcTbl, p.ctx[ci], code);
    if diff.Bad? then Bad(diff.next)
    else
      var q := AfterDc(s, p, ci, diff.value);
      Got(Unit(b[0 := ToCoef(q.lastDc[ci] * Pow2(s.al))], q), diff.next)
  }

  ghost function ParseBand(s: Scan, ci: nat, b: Zigzag, k: Coder, code: seq<byte>)
    : (r: Parse<Zigzag>)
    requires ValidScan(s) && ci < |s.comps| && ValidCoder(k)
    ensures ValidCoder(r.next)
  {
    var start := BandStart(s);
    if s.se < start then Got(b, k)
    else
      var tbl := s.comps[ci].acTbl;
      var c := ParseAcRest(k, tbl, s.cond.acK[tbl], start - 1, s.se + 1 - start, code);
      if c.Bad? then Bad(c.next) else Got(Overlay(b, start, c.value, Pow2(s.al)), c.next)
  }

  ghost function ParseRefine(s: Scan, ci: nat, b: Zigzag, k: Coder, code: seq<byte>)
    : (r: Parse<Zigzag>)
    requires ValidScan(s) && s.mode == AcRefine && ci < |s.comps| && ValidCoder(k)
    ensures ValidCoder(r.next)
  {
    var c := ParseRefRest(k, s.comps[ci].acTbl, LastNonzero(b, s.se), s.ss - 1,
                          b[s.ss..s.se + 1], Pow2(s.al), code);
    if c.Bad? then Bad(c.next) else Got(Replace(b, s.ss, c.value), c.next)
  }

  /** Decoding one block of component `ci` over what `b` holds. */
  ghost function ParseBlock(s: Scan, p: Pred, ci: nat, b: Zigzag, k: Coder, code: seq<byte>)
    : (r: Parse<Unit>)
    requires ValidScan(s) && ValidPred(s, p) && ci < |s.comps| && ValidCoder(k)
    ensures ValidCoder(r.next) && (r.Got? ==> ValidPred(s, r.value.pred))
  {
    match s.mode
    case Sequential =>
      var dc := ParseDc(s, p, ci, b, k, code);
      if dc.Bad? then dc
      else
        var ac := ParseBand(s, ci, dc.value.block, dc.next, code);
        if ac.Bad? then Bad(ac.next) else Got(Unit(ac.value, dc.value.pred), ac.next)
    case DcFirst => ParseDc(s, p, ci, b, k, code)
    case AcFirst =>
      var ac := ParseBand(s, ci, b, k, code);
      if ac.Bad? then Bad(ac.next) else Got(Unit(ac.value, p), ac.next)
    case DcRefine =>
      var (bit, next) := Read(k, Fixed, code);
      Got(Unit(if bit == 1 then b[0 := OrBit(b[0], Pow2(s.al))] else b, p), next)
    case AcRefine =>
      var ac := ParseRefine(s, ci, b, k, code);
      if ac.Bad? then Bad(ac.next) else Got(Unit(ac.value, p), ac.next)
  }

  // --------------------------------------------- what a block must look like

  /** Positions the scan covers. */
  predicate Covers(s: Scan, j: nat)
  {
    match s.mode
    case Sequential => j <= s.se
    case DcFirst => j == 0
    case DcRefine => j == 0
    case AcFirst => s.ss <= j <= s.se
    case AcRefine => s.ss <= j <= s.se
  }

  /** The block after the scan: covered positions at the new stage. */
  function Target(s: Scan, x: Zigzag, b: Zigzag): (r: Zigzag)
    ensures forall j :: 0 <= j < 64 ==> r[j] == if Covers(s, j) then Staged(x, j, s.al) else b[j]
  {
    seq(64, j requires 0 <= j < 64 => if Covers(s, j) then Staged(x, j, s.al) else b[j])
  }

  /** What the decoder's block holds before the scan: zeros before a first scan of
      AC positions, the previous stage before a refinement. */
  ghost predicate Before(s: Scan, x: Zigzag, b: Zigzag)
  {
    forall j :: 0 <= j < 64 && Covers(s, j) ==>
      match s.mode
      case Sequential => j == 0 || b[j] == 0
      case AcFirst => b[j] == 0
      case DcFirst => true
      case DcRefine => b[j] == Staged(x, j, s.al + 1)
      case AcRefine => b[j] == Staged(x, j, s.al + 1)
  }

  // ------------------------------------------------------- block round trip

  lemma DcParsed(s: Scan, p: Pred, ci: nat, x: Zigzag, b: Zigzag, k: Coder, code: seq<byte>)
    requires ValidScan(s) && ValidPred(s, p) && ci < |s.comps| && ValidCoder(k) && IsJcoef(x)
    requires Leads(k, DcDecisions(s, p, ci, x), code)
    ensures var diff := DcOf(s, x) - p.lastDc[ci];
      if Abs(diff) <= 0x8000 then
        ParseDc(s, p, ci, b, k, code)
        == Got(Unit(b[0 := Staged(x, 0, s.al)], AfterDc(s, p, ci, diff)),
               Run(k, DcDecisions(s, p, ci, x)))
      else ParseDc(s, p, ci, b, k, code).Bad?
  {
    hide Step, DecodedBit, Contains, Run, Leads, LegalRun, Read, DcDiff, ParseDcDiff;
    DcDiffParsed(k, s.comps[ci].dcTbl, p.ctx[ci], DcOf(s, x) - p.lastDc[ci], code);
    ShiftDownBounds(x[0], s.al);
  }

  lemma BandValues(s: Scan, x: Zigzag, b: Zigzag)
    requires ValidScan(s) && IsJcoef(x) && BandStart(s) <= s.se
    requires s.mode == AcFirst || (s.mode == Sequential && b[0] == Staged(x, 0, 0))
    requires forall j :: 0 < j < 64 && Covers(s, j) ==> b[j] == 0
    ensures Codable(BandOf(s, x))
    ensures Overlay(b, BandStart(s), BandOf(s, x), Pow2(s.al)) == Target(s, x, b)
  {
    var start, c := BandStart(s), BandOf(s, x);
    forall j | start <= j <= s.se
      ensures c[j - start] == Point(x[j], s.al) && Abs(c[j - start]) <= 0x8000
      ensures ToCoef(c[j - start] * Pow2(s.al)) == Staged(x, j, s.al)
    {
      PointBounds(x[j], s.al);
    }
    hide Point, ToCoef, Pow2;
    forall i | 0 <= i < |c|
      ensures Abs(c[i]) <= 0x8000
    {
      assert c[i] == c[(i + start) - start];
    }
  }

  lemma BandParsed(s: Scan, ci: nat, x: Zigzag, b: Zigzag, k: Coder, code: seq<byte>)
    requires ValidScan(s) && ci < |s.comps| && ValidCoder(k) && IsJcoef(x)
    requires s.mode == AcFirst || (s.mode == Sequential && b[0] == Staged(x, 0, 0))
    requires forall j :: 0 < j < 64 && Covers(s, j) ==> b[j] == 0
    requires Leads(k, BandDecisions(s, ci, x), code)
    ensures ParseBand(s, ci, b, k, code) == Got(Target(s, x, b), Run(k, BandDecisions(s, ci, x)))
  {
    hide Target, Overlay, Codable, Run, Leads, LegalRun, AcRest, ParseAcRest, Contains, Points,
      IsJcoef, Covers, Staged;
    if s.se < BandStart(s) {
      NoBand(s, ci, x, b, k);
    } else {
      var tbl := s.comps[ci].acTbl;
      BandValues(s, x, b);
      AcRestParsed(k, tbl, s.cond.acK[tbl], BandStart(s) - 1, BandOf(s, x), code);
    }
  }

  lemma NoBand(s: Scan, ci: nat, x: Zigzag, b: Zigzag, k: Coder)
    requires ValidScan(s) && ci < |s.comps| && s.se < BandStart(s) && ValidCoder(k)
    requires s.mode == AcFirst || (s.mode == Sequential && b[0] == Staged(x, 0, 0))
    ensures BandDecisions(s, ci, x) == [] && Run(k, []) == k && Target(s, x, b) == b
  {
  }

  // ------------------------------------------------------------- refinement

  /** In a refinement scan the block is one stage behind. */
  ghost predicate RefineBand(s: Scan, x: Zigzag, b: Zigzag)
  {
    forall j :: s.ss <= j <= s.se && j < 64 ==> RefineAt(s, x, b, j)
  }

  lemma RefineReady(s: Scan, x: Zigzag, b: Zigzag)
    requires ValidScan(s) && s.mode == AcRefine && IsJcoef(x) && Before(s, x, b)
    ensures RefineBand(s, x, b)
  {
    hide RefineAt;
    forall j | s.ss <= j <= s.se
      ensures RefineAt(s, x, b, j)
    {
      RefinePosition(s, x, b, j);
    }
  }

  lemma RefineStage(s: Scan, x: Zigzag, b: Zigzag)
    requires ValidScan(s) && s.mode == AcRefine && RefineBand(s, x, b)
    ensures StageBefore(b[s.ss..s.se + 1], BandOf(s, x), Pow2(s.al))
    ensures Replace(b, s.ss, ScaledAll(BandOf(s, x), Pow2(s.al))) == Target(s, x, b)
  {
    hide Point, Scaled, Pow2, Staged, OneStageBefore, ScaledAll, Points, RefineAt;
    var c, t, p1 := b[s.ss..s.se + 1], BandOf(s, x), Pow2(s.al);
    forall i | 0 <= i < |t|
      ensures OneStageBefore(c[i], t[i], p1) && -0x8000 <= Scaled(t[i], p1) < 0x8000
    {
      RefineAtBand(s, x, b, s.ss + i);
    }
    var r := Replace(b, s.ss, ScaledAll(t, p1));
    forall j | 0 <= j < 64
      ensures r[j] == Target(s, x, b)[j]
    {
      if s.ss <= j <= s.se {
        RefineAtBand(s, x, b, j);
      }
    }
  }

  lemma RefineAtBand(s: Scan, x: Zigzag, b: Zigzag, j: nat)
    requires ValidScan(s) && s.mode == AcRefine && RefineBand(s, x, b) && s.ss <= j <= s.se
    ensures var v, p1 := BandOf(s, x)[j - s.ss], Pow2(s.al);
      && OneStageBefore(b[j], v, p1) && -0x8000 <= Scaled(v, p1) < 0x8000
      && Scaled(v, p1) == Staged(x, j, s.al) && (v == 0 ==> b[j] == 0)
  {
    hide Point, Scaled, Pow2, Staged, OneStageBefore;
    assert RefineAt(s, x, b, j);
  }

  /** Both sides find end-of-band indexes that act alike, although the encoder's
      comes from the original coefficients and positions below the band may be
      at any stage. */
  lemma RefineEobx(s: Scan, x: Zigzag, b: Zigzag)
    requires ValidScan(s) && s.mode == AcRefine && RefineBand(s, x, b)
    ensures SameFrom(LastNonzero(Points(x, s.al + 1), s.se), LastNonzero(b, s.se), s.ss - 1)
  {
    hide Point, Scaled, Pow2, Staged, OneStageBefore, LastNonzero, SameFrom;
    var h := Points(x, s.al + 1);
    forall j | s.ss <= j <= s.se
      ensures b[j] == 0 <==> h[j] == 0
    {
      assert RefineAt(s, x, b, j);
    }
    EobxAgree(b, h, s.ss, s.se);
  }

  lemma RefineBeyond(s: Scan, x: Zigzag, b: Zigzag)
    requires ValidScan(s) && s.mode == AcRefine && RefineBand(s, x, b)
    ensures NoneBeyond(BandOf(s, x), s.ss - 1, LastNonzero(b, s.se))
  {
    hide Point, Scaled, Pow2, Staged, OneStageBefore, LastNonzero, Quiet, Zeros, RefineAt, Points,
      RefineBand;
    var t := BandOf(s, x);
    forall j | 0 <= j <= |t| && Quiet(t[j..])
      ensures LastNonzero(b, s.se) <= s.ss - 1 + j
    {
      QuietIsZeros(t[j..]);
      ZerosAt(|t| - j);
      if s.ss + j <= LastNonzero(b, s.se) {
        var i := LastNonzero(b, s.se);
        RefineAtBand(s, x, b, i);
      }
    }
  }

  /** Position `j` of the band before and after the stage. */
  ghost predicate RefineAt(s: Scan, x: Zigzag, b: Zigzag, j: nat)
    requires j < 64
  {
    var v, p1 := Point(x[j], s.al), Pow2(s.al);
    && OneStageBefore(b[j], v, p1) && -0x8000 <= Scaled(v, p1) < 0x8000
    && Scaled(v, p1) == Staged(x, j, s.al)
    && (b[j] != 0 <==> Point(x[j], s.al + 1) != 0) && (v == 0 ==> b[j] == 0)
  }

  lemma RefinePosition(s: Scan, x: Zigzag, b: Zigzag, j: nat)
    requires ValidScan(s) && s.mode == AcRefine && IsJcoef(x) && Before(s, x, b)
    requires s.ss <= j <= s.se
    ensures RefineAt(s, x, b, j)
  {
    hide Point, Pow2;
    assert Covers(s, j);
    PointBounds(x[j], s.al);
    StageOfPoint(x[j], s.al);
  }

  lemma StageOfPoint(x: int, al: nat)
    ensures Point(x, al + 1) == Point(Point(x, al), 1)
    ensures Point(x, al + 1) * Pow2(al + 1) == Scaled(2 * Point(Point(x, al), 1), Pow2(al))
    ensures Point(x, al + 1) * Pow2(al + 1) != 0 <==> Point(x, al + 1) != 0
    ensures Point(x, al) == 0 ==> Point(x, al + 1) == 0
  {
    var t, h := Point(x, al), Point(x, al + 1);
    assert Shift(Abs(t), 1) == Abs(t) / 2;
    assert Pow2(al + 1) == 2 * Pow2(al);
    MulShuffle(h, 2, Pow2(al));
    if h > 0 {
      MulLt(0, h, Pow2(al + 1));
    } else if h < 0 {
      MulLt(h, 0, Pow2(al + 1));
    }
  }

  /** The decoder finds its index in its own block, the encoder in the original
      coefficients. */
  lemma {:induction false} EobxAgree(b: Zigzag, h: Zigzag, ss: nat, se: nat)
    requires 0 < ss && se < 64 && forall j :: ss <= j <= se ==> (b[j] == 0 <==> h[j] == 0)
    ensures SameFrom(LastNonzero(h, se), LastNonzero(b, se), ss - 1)
    decreases se
  {
    if ss <= se && h[se] == 0 {
      EobxAgree(b, h, ss, se - 1);
    }
  }

  lemma RefineParsed(s: Scan, ci: nat, x: Zigzag, b: Zigzag, k: Coder, code: seq<byte>)
    requires ValidScan(s) && s.mode == AcRefine && ci < |s.comps| && ValidCoder(k) && IsJcoef(x)
    requires Before(s, x, b) && Leads(k, RefineDecisions(s, ci, x), code)
    ensures ParseRefine(s, ci, b, k, code)
         == Got(Target(s, x, b), Run(k, RefineDecisions(s, ci, x)))
  {
    hide Target, Replace, Run, Leads, LegalRun, RefRest, ParseRefRest, Contains, Points, StageBefore,
      NoneBeyond, Before, LastNonzero, IsJcoef, ScaledAll, RefineBand, SameFrom;
    RefineReady(s, x, b);
    RefineStage(s, x, b);
    RefineEobx(s, x, b);
    RefineBeyond(s, x, b);
    assert Pow2(s.al) > 0;
    RefRestParsed(k, s.comps[ci].acTbl, LastNonzero(Points(x, s.al + 1), s.se), LastNonzero(b, s.se),
                  s.ss - 1, b[s.ss..s.se + 1], BandOf(s, x), Pow2(s.al), code);
  }

  // ------------------------------------------------------------ whole blocks

  /** The DC difference has a category the decoder accepts. */
  predicate DcInRange(s: Scan, p: Pred, ci: nat, x: Zigzag)
    requires ValidScan(s) && ValidPred(s, p) && ci < |s.comps|
  {
    s.mode == Sequential || s.mode == DcFirst ==> Abs(DcOf(s, x) - p.lastDc[ci]) <= 0x8000
  }

  lemma DcTarget(s: Scan, x: Zigzag, b: Zigzag)
    requires s.mode == DcFirst || s.mode == DcRefine
    ensures Target(s, x, b) == b[0 := Staged(x, 0, s.al)]
  {
  }

  lemma BandAfterDc(s: Scan, x: Zigzag, b: Zigzag)
    requires s.mode == Sequential && Before(s, x, b)
    ensures var c := b[0 := Staged(x, 0, s.al)];
      Target(s, x, c) == Target(s, x, b) && forall j :: 0 < j < 64 && Covers(s, j) ==> c[j] == 0
  {
    hide Staged;
    assert Covers(s, 0);
  }

  lemma DcRefineParsed(s: Scan, x: Zigzag, b: Zigzag)
    requires ValidScan(s) && s.mode == DcRefine && IsJcoef(x) && Before(s, x, b)
    ensures Target(s, x, b) == if DcOf(s, x) % 2 == 1 then b[0 := OrBit(b[0], Pow2(s.al))] else b
  {
    var h, d, p := ShiftDown(x[0], s.al + 1), DcOf(s, x), Pow2(s.al);
    ShiftDownBounds(x[0], s.al);
    MulShuffle(2, h, p);
    MulShuffle(h, 2, p);
    assert b[0] == h * (2 * p) by {
      assert Covers(s, 0) && Pow2(s.al + 1) == 2 * p;
    }
    hide ShiftDown, Pow2, OrBit, Target, Before, IsJcoef;
    DcTarget(s, x, b);
    NextBit(h, d, p);
  }

  lemma {:induction false} BlockParsed(s: Scan, p: Pred, ci: nat, x: Zigzag, b: Zigzag, k: Coder,
                                       code: seq<byte>)
    requires ValidScan(s) && ValidPred(s, p) && ci < |s.comps| && ValidCoder(k) && IsJcoef(x)
    requires Before(s, x, b) && Leads(k, BlockDecisions(s, p, ci, x), code)
    ensures ParseBlock(s, p, ci, b, k, code).Got? <==> DcInRange(s, p, ci, x)
    ensures DcInRange(s, p, ci, x) ==>
              ParseBlock(s, p, ci, b, k, code)
              == Got(Unit(Target(s, x, b), AfterBlock(s, p, ci, x)),
                     Run(k, BlockDecisions(s, p, ci, x)))
  {
    hide Run, Leads, LegalRun, Contains, Target, ParseDc, ParseBand, ParseRefine, DcDecisions,
      BandDecisions, RefineDecisions, IsJcoef, AfterDc, Step, DecodedBit, OrBit, Pow2;
    match s.mode
    case Sequential =>
      var dc, band := DcDecisions(s, p, ci, x), BandDecisions(s, ci, x);
      LeadsSplit(k, dc, band, code);
      DcParsed(s, p, ci, x, b, k, code);
      if DcInRange(s, p, ci, x) {
        BandAfterDc(s, x, b);
        BandParsed(s, ci, x, b[0 := Staged(x, 0, s.al)], Run(k, dc), code);
      }
    case DcFirst =>
      DcParsed(s, p, ci, x, b, k, code);
      DcTarget(s, x, b);
    case AcFirst =>
      BandParsed(s, ci, x, b, k, code);
    case DcRefine =>
      var d := Decision(Fixed, DcOf(s, x) % 2);
      assert [d] == [d] + [];
      LeadsHead(k, d, [], code);
      RunNone(Step(k, d));
      DcRefineParsed(s, x, b);
    case AcRefine =>
      RefineParsed(s, ci, x, b, k, code);
  }
}
