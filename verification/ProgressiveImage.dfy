/** An image under a progressive script, whatever the entropy coder: which blocks a scan
    visits, and the stage at which each coefficient is after the scans so far (T.81 sections
    G.1.1 and G.1.2). */
module ProgressiveImage {
  import opened Bytes
  import opened Coefficients
  import ScanScript
  import SimpleProgression

  type ScanInfo = ScanScript.ScanInfo

  /** The blocks of every component. */
  type Image = seq<seq<Zigzag>>

  ghost predicate IsImage(orig: Image)
  {
    forall c, b :: 0 <= c < |orig| && 0 <= b < |orig[c]| ==> IsJcoef(orig[c][b])
  }

  ghost predicate SameShape(a: Image, b: Image)
  {
    |a| == |b| && forall c :: 0 <= c < |a| ==> |a[c]| == |b[c]|
  }

  // -------------------------------------------------------------- blocks of a scan

  /** A block in a scan: which of the scan's components, which of its blocks. */
  datatype Visit = Visit(ci: nat, b: nat)

  predicate InImage(info: ScanInfo, img: Image, v: Visit)
  {
    v.ci < |info.comps| && 0 <= info.comps[v.ci] < |img| && v.b < |img[info.comps[v.ci]]|
  }

  ghost predicate AllIn(info: ScanInfo, img: Image, visits: seq<Visit>)
  {
    forall i :: 0 <= i < |visits| ==> InImage(info, img, visits[i])
  }

  function BlockOf(info: ScanInfo, img: Image, v: Visit): Zigzag
    requires InImage(info, img, v)
  {
    img[info.comps[v.ci]][v.b]
  }

  /** The way of a scan through the image, by restart segments. */
  datatype Walk = Walk(info: ScanInfo, visits: seq<seq<Visit>>)

  ghost predicate AllSegmentsIn(w: Walk, img: Image)
  {
    w.visits != [] && forall i :: 0 <= i < |w.visits| ==> AllIn(w.info, img, w.visits[i])
  }

  /** Block `j` of segment `i` is block `b` of component `c`. */
  predicate IsBlock(w: Walk, i: nat, j: nat, c: int, b: nat)
    requires i < |w.visits| && j < |w.visits[i]|
  {
    var v := w.visits[i][j];
    v.ci < |w.info.comps| && w.info.comps[v.ci] == c && v.b == b
  }

  ghost predicate Seen(w: Walk, c: int, b: nat)
  {
    exists i, j :: 0 <= i < |w.visits| && 0 <= j < |w.visits[i]| && IsBlock(w, i, j, c, b)
  }

  /** The scan visits every block of its components. */
  ghost predicate SeesAll(w: Walk, img: Image)
  {
    forall c, b :: 0 <= c < |img| && 0 <= b < |img[c]| && c in w.info.comps ==> Seen(w, c, b)
  }

  /** The decoder's blocks after the scan: those visited hold what was decoded, the others
      what they held. */
  ghost predicate Stored(w: Walk, held: Image, blocks: seq<seq<Zigzag>>, next: Image)
    requires AllSegmentsIn(w, held)
  {
    && SameShape(held, next) && |blocks| == |w.visits| && AllSegmentsIn(w, next)
    && (forall i, j :: 0 <= i < |w.visits| && 0 <= j < |w.visits[i]| ==>
          j < |blocks[i]| && BlockOf(w.info, next, w.visits[i][j]) == blocks[i][j])
    && forall c, b :: 0 <= c < |held| && 0 <= b < |held[c]| && !Seen(w, c, b) ==> next[c][b] == held[c][b]
  }

  lemma ShapeIn(w: Walk, orig: Image, held: Image)
    requires SameShape(orig, held) && AllSegmentsIn(w, orig)
    ensures AllSegmentsIn(w, held)
  {
    forall i | 0 <= i < |w.visits|
      ensures AllIn(w.info, held, w.visits[i])
    {
      assert AllIn(w.info, orig, w.visits[i]);
      assert forall j :: 0 <= j < |w.visits[i]| ==> InImage(w.info, orig, w.visits[i][j]);
    }
  }

  lemma VisitIn(w: Walk, img: Image, i: nat, j: nat)
    requires AllSegmentsIn(w, img) && i < |w.visits| && j < |w.visits[i]|
    ensures InImage(w.info, img, w.visits[i][j])
  {
    assert AllIn(w.info, img, w.visits[i]);
  }

  // -------------------------------------------------------------------- stages

  /** Coefficient `j` at a stage of the script; -1 is before any scan. */
  function StageOf(x: Zigzag, j: nat, last: int): int
    requires j < 64
  {
    if last < 0 then 0 else Staged(x, j, last)
  }

  /** A block of component `c` after the scans. */
  ghost predicate BlockAt(scans: seq<ScanInfo>, c: int, x: Zigzag, b: Zigzag)
  {
    forall j :: 0 <= j < 64 ==> b[j] == StageOf(x, j, ScanScript.LastAl(scans, c, j))
  }

  /** Every block after the scans. */
  ghost predicate ImageAt(scans: seq<ScanInfo>, orig: Image, held: Image)
  {
    && SameShape(orig, held)
    && forall c, b :: 0 <= c < |orig| && 0 <= b < |orig[c]| ==> BlockAt(scans, c, orig[c][b], held[c][b])
  }

  /** The decoder's coefficient `j` is one stage behind the scan. */
  ghost predicate StageBehind(info: ScanInfo, x: Zigzag, b: Zigzag, j: nat)
    requires j < 64 && 0 <= info.al
  {
    if info.ah == 0 then info.ss == 0 || b[j] == 0 else b[j] == Staged(x, j, info.al + 1)
  }

  /** The block after the scan: covered positions at its stage. */
  function NextStage(info: ScanInfo, x: Zigzag, b: Zigzag): (r: Zigzag)
    requires 0 <= info.al
    ensures forall j :: 0 <= j < 64 ==> r[j] == if info.ss <= j <= info.se then Staged(x, j, info.al) else b[j]
  {
    seq(64, j requires 0 <= j < 64 => if info.ss <= j <= info.se then Staged(x, j, info.al) else b[j])
  }

  lemma Nonnegative(scans: seq<ScanInfo>, info: ScanInfo, n: nat)
    requires ScanScript.ScanOk(scans, info, n)
    ensures 0 <= info.ss && 0 <= info.se && 0 <= info.al && |info.comps| > 0
  {
  }

  lemma BlockBehind(scans: seq<ScanInfo>, info: ScanInfo, i: nat, x: Zigzag, b: Zigzag, n: nat)
    requires ScanScript.ScanOk(scans, info, n) && i < |info.comps| && BlockAt(scans, info.comps[i], x, b)
    ensures 0 <= info.al && forall j :: 0 <= j < 64 && info.ss <= j <= info.se ==> StageBehind(info, x, b, j)
  {
    hide ScanScript.LastAl, Staged;
    var c := info.comps[i];
    assert ScanScript.CompOrder(scans, info, c);
    forall j | 0 <= j < 64 && info.ss <= j <= info.se
      ensures StageBehind(info, x, b, j)
    {
      assert ScanScript.StepOk(scans, info, c, j);
    }
  }

  /** The scan takes it to the next stage. */
  lemma BlockNext(scans: seq<ScanInfo>, info: ScanInfo, i: nat, x: Zigzag, b: Zigzag, n: nat)
    requires ScanScript.ScanOk(scans, info, n) && i < |info.comps| && BlockAt(scans, info.comps[i], x, b)
    ensures 0 <= info.al && BlockAt(scans + [info], info.comps[i], x, NextStage(info, x, b))
  {
    hide ScanScript.LastAl, Staged;
    var c := info.comps[i];
    forall j | 0 <= j < 64
      ensures NextStage(info, x, b)[j] == StageOf(x, j, ScanScript.LastAl(scans + [info], c, j))
    {
      ScanScript.LastIs(scans, info, c, j);
    }
  }

  lemma BlockElsewhere(scans: seq<ScanInfo>, info: ScanInfo, c: int, x: Zigzag, b: Zigzag)
    requires c !in info.comps && BlockAt(scans, c, x, b)
    ensures BlockAt(scans + [info], c, x, b)
  {
    hide ScanScript.LastAl, Staged;
    forall j | 0 <= j < 64
      ensures b[j] == StageOf(x, j, ScanScript.LastAl(scans + [info], c, j))
    {
      ScanScript.LastIs(scans, info, c, j);
    }
  }

  /** What the coders need to know of a visited block. */
  lemma VisitBehind(scans: seq<ScanInfo>, info: ScanInfo, orig: Image, held: Image, v: Visit, n: nat)
    requires ScanScript.ScanOk(scans, info, n) && ImageAt(scans, orig, held) && IsImage(orig)
    requires InImage(info, orig, v) && InImage(info, held, v)
    ensures 0 <= info.al && IsJcoef(BlockOf(info, orig, v))
    ensures forall j :: 0 <= j < 64 && info.ss <= j <= info.se ==>
              StageBehind(info, BlockOf(info, orig, v), BlockOf(info, held, v), j)
  {
    hide ScanScript.ScanOk, BlockAt, StageBehind, IsJcoef;
    var c := info.comps[v.ci];
    assert BlockAt(scans, c, orig[c][v.b], held[c][v.b]);
    BlockBehind(scans, info, v.ci, orig[c][v.b], held[c][v.b], n);
  }

  // ---------------------------------------------------------------- one scan of it

  /** Every visited block was decoded to its next stage. */
  ghost predicate Advanced(w: Walk, orig: Image, held: Image, blocks: seq<seq<Zigzag>>)
    requires AllSegmentsIn(w, orig) && AllSegmentsIn(w, held) && 0 <= w.info.al
  {
    && |blocks| == |w.visits|
    && forall i, j :: 0 <= i < |w.visits| && 0 <= j < |w.visits[i]| ==>
         j < |blocks[i]| && VisitAdvanced(w, orig, held, w.visits[i][j], blocks[i][j])
  }

  ghost predicate VisitAdvanced(w: Walk, orig: Image, held: Image, v: Visit, block: Zigzag)
    requires 0 <= w.info.al
  {
    && InImage(w.info, orig, v) && InImage(w.info, held, v)
    && block == NextStage(w.info, BlockOf(w.info, orig, v), BlockOf(w.info, held, v))
  }

  lemma VisitedAt(scans: seq<ScanInfo>, w: Walk, orig: Image, held: Image, next: Image, n: nat,
                  c: int, b: nat, v: Visit)
    requires ScanScript.ScanOk(scans, w.info, n) && ImageAt(scans, orig, held) && 0 <= w.info.al
    requires v.ci < |w.info.comps| && w.info.comps[v.ci] == c && v.b == b && InImage(w.info, next, v)
    requires VisitAdvanced(w, orig, held, v, BlockOf(w.info, next, v))
    ensures 0 <= c < |orig| && b < |orig[c]| && BlockAt(scans + [w.info], c, orig[c][b], next[c][b])
  {
    hide ScanScript.ScanOk, BlockAt, NextStage;
    BlockNext(scans, w.info, v.ci, orig[c][b], held[c][b], n);
  }

  /** After the scan every block is at the next stage of the script. */
  lemma ScanStored(scans: seq<ScanInfo>, w: Walk, orig: Image, held: Image, blocks: seq<seq<Zigzag>>, next: Image,
                   n: nat)
    requires ScanScript.ScanOk(scans, w.info, n) && ImageAt(scans, orig, held) && 0 <= w.info.al
    requires AllSegmentsIn(w, orig) && AllSegmentsIn(w, held) && SeesAll(w, orig)
    requires Advanced(w, orig, held, blocks) && Stored(w, held, blocks, next)
    ensures ImageAt(scans + [w.info], orig, next)
  {
    hide ScanScript.ScanOk, BlockAt, NextStage, VisitAdvanced, AllIn;
    forall c, b | 0 <= c < |orig| && 0 <= b < |orig[c]|
      ensures BlockAt(scans + [w.info], c, orig[c][b], next[c][b])
    {
      if c in w.info.comps {
        assert Seen(w, c, b);
        var i, j :| 0 <= i < |w.visits| && 0 <= j < |w.visits[i]| && IsBlock(w, i, j, c, b);
        VisitIn(w, next, i, j);
        VisitedAt(scans, w, orig, held, next, n, c, b, w.visits[i][j]);
      } else {
        Unseen(w, c, b);
        assert BlockAt(scans, c, orig[c][b], held[c][b]);
        BlockElsewhere(scans, w.info, c, orig[c][b], held[c][b]);
      }
    }
  }

  lemma Unseen(w: Walk, c: int, b: nat)
    requires c !in w.info.comps
    ensures !Seen(w, c, b)
  {
  }

  /** What follows a scan in the file. */
  datatype Follow = Follow(m: byte, tail: seq<byte>)

  // -------------------------------------------------------------- the last stage

  lemma StageZero(x: Zigzag, j: nat)
    requires j < 64 && IsJcoef(x)
    ensures Staged(x, j, 0) == x[j]
  {
    PointBounds(x[j], 0);
  }

  /** After the recommended script every coefficient is what it was. */
  lemma SimpleExact(orig: Image, last: Image, ycc: bool)
    requires 1 <= |orig| && IsImage(orig) && ImageAt(SimpleProgression.Script(|orig|, ycc), orig, last)
    ensures last == orig
  {
    hide ScanScript.LastAl, SimpleProgression.Script;
    var n, scans := |orig|, SimpleProgression.Script(|orig|, ycc);
    SimpleProgression.SimpleLegal(n, ycc);
    forall c | 0 <= c < n
      ensures last[c] == orig[c]
    {
      forall b | 0 <= b < |orig[c]|
        ensures last[c][b] == orig[c][b]
      {
        assert BlockAt(scans, c, orig[c][b], last[c][b]);
        forall j | 0 <= j < 64
          ensures last[c][b][j] == orig[c][b][j]
        {
          assert ScanScript.LastAl(scans, c, j) == 0;
          StageZero(orig[c][b], j);
        }
      }
    }
  }
}
