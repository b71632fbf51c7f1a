/** A whole progressive image with arithmetic coding: the scans of a legal script, one after
    the other.  A scan is lost exactly when a DC difference in it exceeds 2^15 in magnitude;
    up to there every coefficient is at the last stage the script sent it at. */
module ArithScript {
  import opened Bytes
  import opened Coefficients
  import opened ProgressiveImage
  import opened RestartGroups
  import opened IntervalCoder
  import opened ArithScan
  import opened ArithSegment
  import ScanScript
  import SimpleProgression

  /** A scan of the script as it was coded: its way through the image, table numbers,
      conditioning, the statistics that start_pass leaves on both sides, bytes. */
  datatype Coded = Coded(walk: Walk, comps: seq<Comp>, cond: Conditioning, stats: Stats, codes: seq<seq<byte>>)

  predicate Numbered(info: ScanInfo)
  {
    0 <= info.ss && 0 <= info.se && 0 <= info.al
  }

  /** The coder's view of the scan. */
  function ScanOf(k: Coded): Scan
    requires Numbered(k.walk.info)
  {
    var info := k.walk.info;
    var mode := if info.ah == 0 then (if info.ss == 0 then DcFirst else AcFirst)
                else (if info.ss == 0 then DcRefine else AcRefine);
    Scan(mode, info.ss, info.se, info.al, k.comps, k.cond)
  }

  function Jobs(info: ScanInfo, img: Image, visits: seq<Visit>): (r: seq<Job>)
    requires AllIn(info, img, visits)
    ensures |r| == |visits|
    ensures forall i :: 0 <= i < |r| ==> r[i] == Job(visits[i].ci, BlockOf(info, img, visits[i]))
  {
    seq(|visits|, i requires 0 <= i < |visits| => Job(visits[i].ci, BlockOf(info, img, visits[i])))
  }

  function Slots(info: ScanInfo, img: Image, visits: seq<Visit>): (r: seq<Slot>)
    requires AllIn(info, img, visits)
    ensures |r| == |visits|
    ensures forall i :: 0 <= i < |r| ==> r[i] == Slot(visits[i].ci, BlockOf(info, img, visits[i]))
  {
    seq(|visits|, i requires 0 <= i < |visits| => Slot(visits[i].ci, BlockOf(info, img, visits[i])))
  }

  function AllJobs(w: Walk, img: Image): (r: seq<seq<Job>>)
    requires AllSegmentsIn(w, img)
    ensures |r| == |w.visits| && forall i :: 0 <= i < |r| ==> r[i] == Jobs(w.info, img, w.visits[i])
  {
    seq(|w.visits|, i requires 0 <= i < |w.visits| => Jobs(w.info, img, w.visits[i]))
  }

  function AllSlots(w: Walk, img: Image): (r: seq<seq<Slot>>)
    requires AllSegmentsIn(w, img)
    ensures |r| == |w.visits| && forall i :: 0 <= i < |r| ==> r[i] == Slots(w.info, img, w.visits[i])
  {
    seq(|w.visits|, i requires 0 <= i < |w.visits| => Slots(w.info, img, w.visits[i]))
  }

  /** What the encoder made of the scan (ArithScanEncoding.ScanEncoder.FinishPass). */
  ghost predicate Written(k: Coded, orig: Image)
  {
    && Numbered(k.walk.info) && ValidScan(ScanOf(k)) && |k.comps| == |k.walk.info.comps| && ValidStats(k.stats)
    && AllSegmentsIn(k.walk, orig) && SeesAll(k.walk, orig)
    && (forall i :: 0 <= i < |k.walk.visits| ==> ValidJobs(ScanOf(k), Jobs(k.walk.info, orig, k.walk.visits[i])))
    && ScanCodes(ScanOf(k), AllJobs(k.walk, orig), k.stats, k.codes)
  }

  /** All its DC differences are in the decoder's range. */
  ghost predicate InRange(k: Coded, orig: Image)
    requires Written(k, orig)
  {
    ScanInRange(ScanOf(k), AllJobs(k.walk, orig))
  }

  // ---------------------------------------------------------------- one scan of it

  lemma StageIs(k: Coded, x: Zigzag, b: Zigzag)
    requires Numbered(k.walk.info) && ValidScan(ScanOf(k))
    requires forall j :: 0 <= j < 64 && k.walk.info.ss <= j <= k.walk.info.se ==> StageBehind(k.walk.info, x, b, j)
    ensures Before(ScanOf(k), x, b)
  {
    hide Staged;
    forall j | 0 <= j < 64 && Covers(ScanOf(k), j)
      ensures StageBehind(k.walk.info, x, b, j)
    {
    }
  }

  lemma SegmentFits(scans: seq<ScanInfo>, k: Coded, orig: Image, held: Image, visits: seq<Visit>, n: nat)
    requires ScanScript.ScanOk(scans, k.walk.info, n) && ImageAt(scans, orig, held) && IsImage(orig)
    requires AllIn(k.walk.info, orig, visits) && AllIn(k.walk.info, held, visits)
    requires Numbered(k.walk.info) && ValidScan(ScanOf(k)) && |k.comps| == |k.walk.info.comps|
    ensures AllFit(ScanOf(k), Jobs(k.walk.info, orig, visits), Slots(k.walk.info, held, visits))
  {
    hide ScanScript.ScanOk, ImageAt, IsJcoef, IsImage, Before, StageBehind, ValidScan;
    var info := k.walk.info;
    var jobs, slots := Jobs(info, orig, visits), Slots(info, held, visits);
    forall i | 0 <= i < |jobs|
      ensures Fits(ScanOf(k), jobs[i], slots[i])
    {
      assert InImage(info, orig, visits[i]);
      VisitBehind(scans, info, orig, held, visits[i], n);
      StageIs(k, jobs[i].block, slots[i].held);
    }
  }

  /** A scan of the script read back: every block it visits is at its target, unless a DC
      difference is out of range, and then the scan is lost. */
  lemma ScanRead(scans: seq<ScanInfo>, k: Coded, orig: Image, held: Image, n: nat, m: byte, tail: seq<byte>)
    requires ScanScript.ScanOk(scans, k.walk.info, n) && Written(k, orig) && IsImage(orig) && ImageAt(scans, orig, held)
    requires 0 < m < 255
    ensures AllSegmentsIn(k.walk, held)
    ensures ScanFits(ScanOf(k), AllJobs(k.walk, orig), AllSlots(k.walk, held))
    ensures forall i :: 0 <= i < |k.walk.visits| ==>
              ValidSlots(ScanOf(k), Slots(k.walk.info, held, k.walk.visits[i]))
    ensures ParseScan(ScanOf(k), AllSlots(k.walk, held), k.stats, 0, ScanBytes(k.codes, 0, [255, m] + tail))
         == if InRange(k, orig)
            then ScanResult.Complete(ScanTargets(ScanOf(k), AllJobs(k.walk, orig), AllSlots(k.walk, held)), At(m, tail))
            else BadScan
  {
    hide ScanScript.ScanOk, AllFit, ValidScan, ScanCodes, BlockAt, IsJcoef, ParseScan, ValidJobs, ValidSlots, IsImage,
      SeesAll, AllIn, ValidStats, ScanInRange;
    var s, segs := ScanOf(k), AllJobs(k.walk, orig);
    ShapeIn(k.walk, orig, held);
    var slots := AllSlots(k.walk, held);
    forall i | 0 <= i < |segs|
      ensures AllFit(s, segs[i], slots[i]) && ValidJobs(s, segs[i]) && ValidSlots(s, slots[i])
    {
      SegmentFits(scans, k, orig, held, k.walk.visits[i], n);
      FitsValid(s, segs[i], slots[i]);
    }
    ScanParsed(s, segs, slots, k.stats, k.codes, 0, m, tail);
  }

  lemma TargetIsNext(k: Coded, x: Zigzag, b: Zigzag)
    requires Numbered(k.walk.info) && ValidScan(ScanOf(k))
    ensures Target(ScanOf(k), x, b) == NextStage(k.walk.info, x, b)
  {
  }

  lemma TargetsAdvance(k: Coded, orig: Image, held: Image)
    requires AllSegmentsIn(k.walk, orig) && AllSegmentsIn(k.walk, held)
    requires Numbered(k.walk.info) && ValidScan(ScanOf(k))
    requires ScanFits(ScanOf(k), AllJobs(k.walk, orig), AllSlots(k.walk, held))
    ensures Advanced(k.walk, orig, held, ScanTargets(ScanOf(k), AllJobs(k.walk, orig), AllSlots(k.walk, held)))
  {
    hide Target, NextStage, AllIn, Fits, ValidScan;
    var w, segs, slots := k.walk, AllJobs(k.walk, orig), AllSlots(k.walk, held);
    var blocks := ScanTargets(ScanOf(k), segs, slots);
    forall i, j | 0 <= i < |w.visits| && 0 <= j < |w.visits[i]|
      ensures j < |blocks[i]| && VisitAdvanced(w, orig, held, w.visits[i][j], blocks[i][j])
    {
      VisitIn(w, orig, i, j);
      VisitIn(w, held, i, j);
      assert AllFit(ScanOf(k), segs[i], slots[i]);
      assert segs[i] == Jobs(w.info, orig, w.visits[i]) && slots[i] == Slots(w.info, held, w.visits[i]);
      TargetIsNext(k, segs[i][j].block, slots[i][j].held);
    }
  }

  // ------------------------------------------------------------- the whole script

  /** What the decoder makes of the scan into the blocks it holds. */
  ghost function Parsed(k: Coded, held: Image, m: byte, tail: seq<byte>): ScanResult
    requires Numbered(k.walk.info) && ValidScan(ScanOf(k)) && ValidStats(k.stats)
  {
    if AllSegmentsIn(k.walk, held)
       && (forall i :: 0 <= i < |k.walk.visits| ==> ValidSlots(ScanOf(k), Slots(k.walk.info, held, k.walk.visits[i])))
    then ParseScan(ScanOf(k), AllSlots(k.walk, held), k.stats, 0, ScanBytes(k.codes, 0, [255, m] + tail))
    else BadScan
  }

  /** The decoder stores what it decodes, over what it held. */
  ghost predicate WritesBack(k: Coded, held: Image, next: Image, m: byte, tail: seq<byte>)
    requires Numbered(k.walk.info) && ValidScan(ScanOf(k)) && ValidStats(k.stats)
  {
    var r := Parsed(k, held, m, tail);
    r.Complete? ==> AllSegmentsIn(k.walk, held) && Stored(k.walk, held, r.blocks, next)
  }

  function Infos(ks: seq<Coded>): (r: seq<ScanInfo>)
    ensures |r| == |ks| && forall i :: 0 <= i < |r| ==> r[i] == ks[i].walk.info
  {
    seq(|ks|, i requires 0 <= i < |ks| => ks[i].walk.info)
  }

  /** The coded scans of a script, and the decoder's blocks before, between and after them. */
  ghost predicate IsRun(ks: seq<Coded>, orig: Image, helds: seq<Image>, follows: seq<Follow>)
  {
    && |helds| == |ks| + 1 && |follows| == |ks|
    && forall i :: 0 <= i < |ks| ==>
         && Written(ks[i], orig) && 0 < follows[i].m < 255
         && WritesBack(ks[i], helds[i], helds[i + 1], follows[i].m, follows[i].tail)
  }

  lemma OneScan(scans: seq<ScanInfo>, k: Coded, orig: Image, held: Image, next: Image, n: nat, m: byte, tail: seq<byte>)
    requires ScanScript.ScanOk(scans, k.walk.info, n) && Written(k, orig) && IsImage(orig) && ImageAt(scans, orig, held)
    requires 0 < m < 255 && WritesBack(k, held, next, m, tail)
    ensures Parsed(k, held, m, tail).Complete? <==> InRange(k, orig)
    ensures InRange(k, orig) ==> ImageAt(scans + [k.walk.info], orig, next)
  {
    hide ScanScript.ScanOk, ImageAt, ParseScan, Stored, IsImage, Advanced, ValidScan, ValidJobs, ScanCodes,
      AllSegmentsIn, SeesAll, InRange, ScanFits, ValidStats, ValidSlots;
    ScanRead(scans, k, orig, held, n, m, tail);
    TargetsAdvance(k, orig, held);
    if InRange(k, orig) {
      var blocks := ScanTargets(ScanOf(k), AllJobs(k.walk, orig), AllSlots(k.walk, held));
      ScanStored(scans, k.walk, orig, held, blocks, next, n);
    }
  }

  /** The first `i` scans are in the decoder's range. */
  ghost predicate AllInRange(ks: seq<Coded>, orig: Image, i: nat)
    requires i <= |ks| && forall j :: 0 <= j < |ks| ==> Written(ks[j], orig)
  {
    forall j :: 0 <= j < i ==> InRange(ks[j], orig)
  }

  /** The progressive round trip over a whole script: as long as the scans are in range every
      coefficient is, after each, the point transform of the original at the last stage it was
      sent at, or zero; and the next scan is decoded exactly if it is in range. */
  lemma {:induction false} ScriptDecoded(ks: seq<Coded>, orig: Image, helds: seq<Image>, follows: seq<Follow>,
                                         n: nat, i: nat)
    requires ScanScript.ScansOk(Infos(ks), n) && IsImage(orig) && IsRun(ks, orig, helds, follows)
    requires ImageAt([], orig, helds[0]) && i <= |ks| && AllInRange(ks, orig, i)
    ensures ImageAt(Infos(ks)[..i], orig, helds[i])
    ensures i < |ks| ==> (Parsed(ks[i], helds[i], follows[i].m, follows[i].tail).Complete? <==> InRange(ks[i], orig))
    decreases i
  {
    hide ImageAt, Written, WritesBack, IsImage, ScanScript.ScanOk, InRange, Parsed;
    var infos := Infos(ks);
    if i == 0 {
      assert infos[..0] == [];
    } else {
      ScriptDecoded(ks, orig, helds, follows, n, i - 1);
      assert ScanScript.ScanOk(infos[..i - 1], infos[i - 1], n);
      OneScan(infos[..i - 1], ks[i - 1], orig, helds[i - 1], helds[i], n, follows[i - 1].m, follows[i - 1].tail);
      assert infos[..i] == infos[..i - 1] + [ks[i - 1].walk.info];
    }
    if i < |ks| {
      assert ScanScript.ScanOk(infos[..i], infos[i], n);
      OneScan(infos[..i], ks[i], orig, helds[i], helds[i + 1], n, follows[i].m, follows[i].tail);
    }
  }

  // --------------------------------------------------------- images always in range

  /** DC values that samples of 8 bits give are much smaller still. */
  ghost predicate Modest(img: Image)
  {
    forall c, b :: 0 <= c < |img| && 0 <= b < |img[c]| ==> -0x4000 <= img[c][b][0] <= 0x4000
  }

  ghost predicate ModestPred(p: Pred)
  {
    forall i :: 0 <= i < |p.lastDc| ==> -0x4000 <= p.lastDc[i] <= 0x4000
  }

  lemma {:induction false} ShiftModest(x: int, n: nat)
    requires -0x4000 <= x <= 0x4000
    ensures -0x4000 <= ShiftDown(x, n) <= 0x4000
  {
    if n != 0 {
      ShiftModest(x, n - 1);
    }
  }

  lemma {:induction false} ModestJobs(s: Scan, p: Pred, jobs: seq<Job>)
    requires ValidScan(s) && CoefPred(s, p) && ValidJobs(s, jobs) && ModestPred(p)
    requires forall i :: 0 <= i < |jobs| ==> -0x4000 <= jobs[i].block[0] <= 0x4000
    ensures JobsInRange(s, p, jobs)
    decreases |jobs|
  {
    hide ShiftDown, IsJcoef, DcContext;
    if jobs != [] {
      var ci, x := jobs[0].ci, jobs[0].block;
      BlockBins(s, p, ci, x);
      ShiftModest(x[0], s.al);
      ModestJobs(s, AfterBlock(s, p, ci, x), jobs[1..]);
    }
  }

  /** Every scan of an image whose DC values are within 2^14 is in range. */
  lemma ModestInRange(k: Coded, orig: Image)
    requires Written(k, orig) && Modest(orig)
    ensures InRange(k, orig)
  {
    hide JobsInRange, ValidStats, ScanCodes, SeesAll, IsJcoef;
    var s, segs := ScanOf(k), AllJobs(k.walk, orig);
    forall i | 0 <= i < |segs|
      ensures JobsInRange(s, StartPred(s), segs[i])
    {
      assert AllIn(k.walk.info, orig, k.walk.visits[i]);
      forall j | 0 <= j < |segs[i]|
        ensures -0x4000 <= segs[i][j].block[0] <= 0x4000
      {
        assert InImage(k.walk.info, orig, k.walk.visits[i][j]);
      }
      ModestJobs(s, StartPred(s), segs[i]);
    }
  }

  /** An image coded by the recommended script comes back exactly, if its DC values are
      within 2^14. */
  lemma SimpleDecoded(ks: seq<Coded>, orig: Image, helds: seq<Image>, follows: seq<Follow>, ycc: bool)
    requires 1 <= |orig| && Infos(ks) == SimpleProgression.Script(|orig|, ycc)
    requires IsImage(orig) && Modest(orig) && IsRun(ks, orig, helds, follows) && ImageAt([], orig, helds[0])
    ensures helds[|ks|] == orig
  {
    hide Written, WritesBack, ImageAt, Modest, InRange, ScanScript.LastAl, ScanScript.ScanOk, SimpleProgression.Script;
    SimpleProgression.SimpleLegal(|orig|, ycc);
    forall i | 0 <= i < |ks|
      ensures InRange(ks[i], orig)
    {
      ModestInRange(ks[i], orig);
    }
    ScriptDecoded(ks, orig, helds, follows, |orig|, |ks|);
    assert Infos(ks)[..|ks|] == Infos(ks);
    SimpleExact(orig, helds[|ks|], ycc);
  }
}
