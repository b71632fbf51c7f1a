/** A whole progressive Huffman image: the scans of a legal script, one after the other.
    After each decoded scan every coefficient is the point transform of the original at the
    last stage the script sent it at (T.81 sections G.1.2 and G.2). */
module ProgressiveScript {
  import opened Bytes
  import opened Coefficients
  import opened ProgressiveImage
  import opened RestartGroups
  import opened HuffmanScan
  import opened HuffmanRoundTrip
  import ScanScript
  import SimpleProgression

  /** The coder's view of a scan of the script. */
  function ScanOf(info: ScanInfo): Scan
    requires 0 <= info.ss && 0 <= info.se && 0 <= info.al
  {
    var mode := if info.ah == 0 then (if info.ss == 0 then DcFirst else AcFirst)
                else (if info.ss == 0 then DcRefine else AcRefine);
    Scan(mode, info.ss, info.se, info.al, |info.comps|)
  }

  function Jobs(info: ScanInfo, img: Image, visits: seq<Visit>): (r: seq<Job>)
    requires AllIn(info, img, visits)
    ensures |r| == |visits|
    ensures forall i :: 0 <= i < |r| ==> r[i] == Job(visits[i].ci, BlockOf(info, img, visits[i]))
  {
    seq(|visits|, i requires 0 <= i < |visits| => Job(visits[i].ci, BlockOf(info, img, visits[i])))
  }

  function Slots(info: ScanInfo, img: Image, visits: seq<Visit>): (r: seq<Slot>)
    requires AllIn(info, img, visits)
    ensures |r| == |visits|
    ensures forall i :: 0 <= i < |r| ==> r[i] == Slot(visits[i].ci, BlockOf(info, img, visits[i]))
  {
    seq(|visits|, i requires 0 <= i < |visits| => Slot(visits[i].ci, BlockOf(info, img, visits[i])))
  }

  /** A scan of the script as it was coded: its way through the image, tables, bytes. */
  datatype Coded = Coded(walk: Walk, ts: seq<CompTables>, codes: seq<seq<byte>>)

  function AllJobs(w: Walk, img: Image): (r: seq<seq<Job>>)
    requires AllSegmentsIn(w, img)
    ensures |r| == |w.visits|
    ensures forall i :: 0 <= i < |r| ==> r[i] == Jobs(w.info, img, w.visits[i])
  {
    seq(|w.visits|, i requires 0 <= i < |w.visits| => Jobs(w.info, img, w.visits[i]))
  }

  function AllSlots(w: Walk, img: Image): (r: seq<seq<Slot>>)
    requires AllSegmentsIn(w, img)
    ensures |r| == |w.visits|
    ensures forall i :: 0 <= i < |r| ==> r[i] == Slots(w.info, img, w.visits[i])
  {
    seq(|w.visits|, i requires 0 <= i < |w.visits| => Slots(w.info, img, w.visits[i]))
  }

  /** What the encoder made of the scan (HuffmanScanEncoding.ScanEncoder.FinishPass). */
  ghost predicate Written(k: Coded, orig: Image)
  {
    var info := k.walk.info;
    && 0 <= info.ss && 0 <= info.se && 0 <= info.al && ValidScan(ScanOf(info))
    && Encodable(ScanOf(info), k.ts) && AllSegmentsIn(k.walk, orig) && SeesAll(k.walk, orig)
    && (forall i :: 0 <= i < |k.walk.visits| ==> ValidJobs(ScanOf(info), Jobs(info, orig, k.walk.visits[i])))
    && ScanCodes(ScanOf(info), k.ts, AllJobs(k.walk, orig), k.codes)
  }

  lemma WrittenIn(k: Coded, orig: Image)
    requires Written(k, orig)
    ensures AllSegmentsIn(k.walk, orig) && SeesAll(k.walk, orig)
    ensures 0 <= k.walk.info.ss && 0 <= k.walk.info.se && 0 <= k.walk.info.al && k.walk.visits != []
  {
  }

  // ---------------------------------------------------------------- one scan of it

  lemma SegmentFits(scans: seq<ScanInfo>, info: ScanInfo, orig: Image, held: Image, visits: seq<Visit>, n: nat)
    requires ScanScript.ScanOk(scans, info, n) && ImageAt(scans, orig, held) && IsImage(orig)
    requires AllIn(info, orig, visits) && AllIn(info, held, visits)
    ensures Fits(ScanOf(info), Jobs(info, orig, visits), Slots(info, held, visits))
  {
    hide ScanScript.ScanOk, ImageAt, IsJcoef, IsImage, Behind, StageBehind;
    Nonnegative(scans, info, n);
    var jobs, slots := Jobs(info, orig, visits), Slots(info, held, visits);
    forall i | 0 <= i < |jobs|
      ensures slots[i].ci == jobs[i].ci < ScanOf(info).comps && IsJcoef(jobs[i].block)
      ensures Behind(ScanOf(info), jobs[i].block, slots[i].held)
    {
      assert InImage(info, orig, visits[i]);
      VisitBehind(scans, info, orig, held, visits[i], n);
      StageIs(info, jobs[i].block, slots[i].held);
    }
  }

  lemma StageIs(info: ScanInfo, x: Zigzag, b: Zigzag)
    requires 0 <= info.ss && 0 <= info.se && 0 <= info.al
    requires forall j :: 0 <= j < 64 && info.ss <= j <= info.se ==> StageBehind(info, x, b, j)
    ensures Behind(ScanOf(info), x, b)
  {
    hide Staged;
    forall j | 0 <= j < 64 && info.ss <= j <= info.se
      ensures BehindAt(ScanOf(info), x, b, j)
    {
      assert StageBehind(info, x, b, j);
    }
  }

  /** A scan of the script read back: every block it visits is at its target. */
  lemma ScanRead(scans: seq<ScanInfo>, k: Coded, orig: Image, held: Image, n: nat, m: byte, tail: seq<byte>)
    requires ScanScript.ScanOk(scans, k.walk.info, n) && Written(k, orig) && IsImage(orig) && ImageAt(scans, orig, held)
    requires 0 < m < 255
    ensures AllSegmentsIn(k.walk, held) && Readable(ScanOf(k.walk.info), k.ts)
    ensures forall i :: 0 <= i < |k.walk.visits| ==>
              ValidSlots(ScanOf(k.walk.info), Slots(k.walk.info, held, k.walk.visits[i]))
    ensures var s, segs := ScanOf(k.walk.info), AllJobs(k.walk, orig);
            (forall i :: 0 <= i < |segs| ==> |segs[i]| == |AllSlots(k.walk, held)[i]|)
            && ParseScan(s, k.ts, AllSlots(k.walk, held), 0, ScanBytes(k.codes, 0, [255, m] + tail))
            == ScanResult.Complete(ScanTargets(s, segs, AllSlots(k.walk, held)), Ending.At(m, tail))
  {
    hide ScanScript.ScanOk, Fits, ValidScan, Encodable, Readable, ScanCodes, BlockAt, IsJcoef, ParseScan, ValidJobs,
      ValidSlots, IsImage, SeesAll, AllIn;
    var s, segs := ScanOf(k.walk.info), AllJobs(k.walk, orig);
    ShapeIn(k.walk, orig, held);
    EncodableReadable(s, k.ts);
    var slots := AllSlots(k.walk, held);
    forall i | 0 <= i < |segs|
      ensures Fits(s, segs[i], slots[i]) && |segs[i]| == |slots[i]| && ValidJobs(s, segs[i]) && ValidSlots(s, slots[i])
    {
      SegmentFits(scans, k.walk.info, orig, held, k.walk.visits[i], n);
      FitsValid(s, segs[i], slots[i]);
    }
    ScanParsed(s, k.ts, segs, slots, k.codes, 0, m, tail);
  }

  lemma TargetIsNext(info: ScanInfo, x: Zigzag, b: Zigzag)
    requires 0 <= info.ss && 0 <= info.se && 0 <= info.al
    ensures Target(ScanOf(info), x, b) == NextStage(info, x, b)
  {
  }

  lemma TargetsAdvance(w: Walk, orig: Image, held: Image)
    requires AllSegmentsIn(w, orig) && AllSegmentsIn(w, held) && 0 <= w.info.ss && 0 <= w.info.se && 0 <= w.info.al
    requires forall i :: 0 <= i < |w.visits| ==> |AllJobs(w, orig)[i]| == |AllSlots(w, held)[i]|
    ensures Advanced(w, orig, held, ScanTargets(ScanOf(w.info), AllJobs(w, orig), AllSlots(w, held)))
  {
    hide Target, NextStage, AllIn;
    var segs, slots := AllJobs(w, orig), AllSlots(w, held);
    var blocks := ScanTargets(ScanOf(w.info), segs, slots);
    forall i, j | 0 <= i < |w.visits| && 0 <= j < |w.visits[i]|
      ensures j < |blocks[i]| && VisitAdvanced(w, orig, held, w.visits[i][j], blocks[i][j])
    {
      VisitIn(w, orig, i, j);
      VisitIn(w, held, i, j);
      assert segs[i] == Jobs(w.info, orig, w.visits[i]) && slots[i] == Slots(w.info, held, w.visits[i]);
      TargetIsNext(w.info, segs[i][j].block, slots[i][j].held);
    }
  }

  // ------------------------------------------------------------- the whole script

  /** The decoder stores what it decodes, over what it held, with any other markers and
      data after the scan. */
  ghost predicate WritesBack(k: Coded, held: Image, next: Image, m: byte, tail: seq<byte>)
    requires 0 <= k.walk.info.ss && 0 <= k.walk.info.se && 0 <= k.walk.info.al && ValidScan(ScanOf(k.walk.info))
  {
    var s := ScanOf(k.walk.info);
    && AllSegmentsIn(k.walk, held) && Readable(s, k.ts)
    && (forall i :: 0 <= i < |k.walk.visits| ==> ValidSlots(s, Slots(k.walk.info, held, k.walk.visits[i])))
    ==>
    var r := ParseScan(s, k.ts, AllSlots(k.walk, held), 0, ScanBytes(k.codes, 0, [255, m] + tail));
    r.Complete? ==> Stored(k.walk, held, r.blocks, next)
  }

  function Infos(ks: seq<Coded>): (r: seq<ScanInfo>)
    ensures |r| == |ks| && forall i :: 0 <= i < |r| ==> r[i] == ks[i].walk.info
  {
    seq(|ks|, i requires 0 <= i < |ks| => ks[i].walk.info)
  }

  /** The coded scans of a script, and the decoder's blocks before, between and after them. */
  ghost predicate IsRun(ks: seq<Coded>, orig: Image, helds: seq<Image>, follows: seq<Follow>)
  {
    && |helds| == |ks| + 1 && |follows| == |ks|
    && forall i :: 0 <= i < |ks| ==>
         && Written(ks[i], orig) && 0 < follows[i].m < 255
         && WritesBack(ks[i], helds[i], helds[i + 1], follows[i].m, follows[i].tail)
  }

  lemma OneScan(scans: seq<ScanInfo>, k: Coded, orig: Image, held: Image, next: Image, n: nat, m: byte, tail: seq<byte>)
    requires ScanScript.ScanOk(scans, k.walk.info, n) && Written(k, orig) && IsImage(orig) && ImageAt(scans, orig, held)
    requires 0 < m < 255 && WritesBack(k, held, next, m, tail)
    ensures ImageAt(scans + [k.walk.info], orig, next)
  {
    hide ScanScript.ScanOk, ImageAt, ParseScan, Stored, IsImage, Advanced, ValidScan, Encodable, ValidJobs, ScanCodes,
      AllSegmentsIn, SeesAll;
    ScanRead(scans, k, orig, held, n, m, tail);
    TargetsAdvance(k.walk, orig, held);
    var blocks := ScanTargets(ScanOf(k.walk.info), AllJobs(k.walk, orig), AllSlots(k.walk, held));
    ScanStored(scans, k.walk, orig, held, blocks, next, n);
  }

  /** The progressive round trip over a whole script: after each scan every coefficient is
      the point transform of the original at the last stage it was sent at, or zero. */
  lemma {:induction false} ScriptDecoded(ks: seq<Coded>, orig: Image, helds: seq<Image>, follows: seq<Follow>,
                                         n: nat, i: nat)
    requires ScanScript.ScansOk(Infos(ks), n) && IsImage(orig) && IsRun(ks, orig, helds, follows)
    requires ImageAt([], orig, helds[0]) && i <= |ks|
    ensures ImageAt(Infos(ks)[..i], orig, helds[i])
    decreases i
  {
    hide ImageAt, Written, WritesBack, IsImage, ScanScript.ScanOk;
    var infos := Infos(ks);
    if i == 0 {
      assert infos[..0] == [];
    } else {
      ScriptDecoded(ks, orig, helds, follows, n, i - 1);
      assert ScanScript.ScanOk(infos[..i - 1], infos[i - 1], n);
      OneScan(infos[..i - 1], ks[i - 1], orig, helds[i - 1], helds[i], n, follows[i - 1].m, follows[i - 1].tail);
      assert infos[..i] == infos[..i - 1] + [ks[i - 1].walk.info];
    }
  }

  /** An image coded by the recommended script comes back exactly. */
  lemma SimpleDecoded(ks: seq<Coded>, orig: Image, helds: seq<Image>, follows: seq<Follow>, ycc: bool)
    requires 1 <= |orig| && Infos(ks) == SimpleProgression.Script(|orig|, ycc)
    requires IsImage(orig) && IsRun(ks, orig, helds, follows) && ImageAt([], orig, helds[0])
    ensures helds[|ks|] == orig
  {
    hide Written, WritesBack, ImageAt, ScanScript.LastAl, ScanScript.ScanOk, SimpleProgression.Script;
    SimpleProgression.SimpleLegal(|orig|, ycc);
    ScriptDecoded(ks, orig, helds, follows, |orig|, |ks|);
    assert Infos(ks)[..|ks|] == Infos(ks);
    SimpleExact(orig, helds[|ks|], ycc);
  }
}
