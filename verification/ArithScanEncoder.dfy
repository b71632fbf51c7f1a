/** A whole scan through the arithmetic encoder object: MCUs, restart intervals
    and the bytes that are written. */
module ArithScanEncoding {
  import opened Bytes
  import opened Coefficients
  import opened IntervalCoder
  import opened ArithBinarization
  import opened ArithScan
  import opened ArithSegment
  import opened ArithEncoding
  import opened ArithMcuEncoding
  import opened RestartGroups

  ghost predicate AllValidJobs(s: Scan, segs: seq<seq<Job>>)
  {
    forall i :: 0 <= i < |segs| ==> ValidJobs(s, segs[i])
  }

  /** Bins with which the segment after `segs` begins. */
  ghost function StatsAfter(s: Scan, segs: seq<seq<Job>>, stats: Stats): (r: Stats)
    requires ValidScan(s) && ValidStats(stats) && AllValidJobs(s, segs)
    ensures ValidStats(r)
    decreases |segs|
  {
    if segs == [] then stats
    else
      var end := Run(Coder(START, stats), JobDecisions(s, StartPred(s), segs[0]));
      ZeroAreasValid(end.stats, Areas(s));
      StatsAfter(s, segs[1..], ZeroAreas(end.stats, Areas(s)))
  }

  lemma {:induction false} ScanCodesSnoc(s: Scan, segs: seq<seq<Job>>, stats: Stats,
                                         codes: seq<seq<byte>>, seg: seq<Job>, code: seq<byte>)
    requires ValidScan(s) && ValidStats(stats) && AllValidJobs(s, segs) && ValidJobs(s, seg)
    requires ScanCodes(s, segs, stats, codes)
    requires IsCode(Run(Coder(START, StatsAfter(s, segs, stats)),
                        JobDecisions(s, StartPred(s), seg)).iv, code)
    ensures AllValidJobs(s, segs + [seg]) && ScanCodes(s, segs + [seg], stats, codes + [code])
    ensures var end := Run(Coder(START, StatsAfter(s, segs, stats)), JobDecisions(s, StartPred(s), seg));
      StatsAfter(s, segs + [seg], stats) == ZeroAreas(end.stats, Areas(s))
    ensures |codes| == |segs|
    decreases |segs|
  {
    hide Run, JobDecisions, IsCode, ZeroAreas, ValidStats, LegalRun, ValidJobs, Areas;
    if segs == [] {
      assert segs + [seg] == [seg] && [seg][1..] == [] && codes + [code] == [code] && [code][1..] == [];
    } else {
      assert (segs + [seg])[0] == segs[0] && (segs + [seg])[1..] == segs[1..] + [seg];
      assert (codes + [code])[0] == codes[0] && (codes + [code])[1..] == codes[1..] + [code];
      var end := Run(Coder(START, stats), JobDecisions(s, StartPred(s), segs[0]));
      ZeroAreasValid(end.stats, Areas(s));
      ScanCodesSnoc(s, segs[1..], ZeroAreas(end.stats, Areas(s)), codes[1..], seg, code);
    }
  }

  // --------------------------------------------------------------- encoder

  /** The jobs of one MCU given in natural order. */
  function McuJobs(order: seq<nat>, membership: seq<nat>, blocks: seq<Zigzag>): (jobs: seq<Job>)
    requires IsOrder(order) && |membership| == |blocks|
    ensures |jobs| == |blocks|
  {
    seq(|blocks|, i requires 0 <= i < |blocks| => Job(membership[i], InZigzag(order, blocks[i])))
  }

  /** `history` and `pred` are those of the blocks `current` of a segment. */
  ghost predicate Follows(s: Scan, current: seq<Job>, history: seq<Decision>, pred: Pred)
    requires ValidScan(s)
  {
    && ValidJobs(s, current) && history == JobDecisions(s, StartPred(s), current)
    && pred == AfterJobs(s, StartPred(s), current)
  }

  lemma FollowsStart(s: Scan)
    requires ValidScan(s)
    ensures Follows(s, [], [], StartPred(s)) && CoefPred(s, StartPred(s))
  {
  }

  lemma FollowsKept(s: Scan, current: seq<Job>, history: seq<Decision>, pred: Pred)
    requires ValidScan(s) && Follows(s, current, history, pred)
    ensures CoefPred(s, pred)
    ensures s.mode != Sequential && s.mode != DcFirst ==> pred == StartPred(s)
  {
    if s.mode != Sequential && s.mode != DcFirst {
      PredUnused(s, StartPred(s), current);
    }
  }

  lemma FollowsNext(s: Scan, current: seq<Job>, history: seq<Decision>, pred: Pred, job: Job)
    requires ValidScan(s) && Follows(s, current, history, pred) && CoefPred(s, pred)
    requires job.ci < |s.comps| && IsJcoef(job.block)
    ensures Follows(s, current + [job], history + BlockDecisions(s, pred, job.ci, job.block),
                    AfterBlock(s, pred, job.ci, job.block))
  {
    hide BlockDecisions, AfterBlock, JobDecisions, AfterJobs;
    JobsSnoc(s, StartPred(s), current, job);
  }

  /** `written` is the finished segments `segs` with their codes and restart
      markers, and the next segment begins with bins `initial`. */
  ghost predicate WrittenSoFar(s: Scan, segs: seq<seq<Job>>, zeroed: Stats, codes: seq<seq<byte>>,
                               next: nat, initial: Stats, written: seq<byte>)
    requires ValidScan(s) && ValidStats(zeroed)
  {
    && AllValidJobs(s, segs) && ScanCodes(s, segs, zeroed, codes)
    && |codes| == |segs| && next == |codes| % 8
    && initial == StatsAfter(s, segs, zeroed) && written == Closed(codes, 0)
  }

  lemma SegmentWritten(s: Scan, segs: seq<seq<Job>>, zeroed: Stats, codes: seq<seq<byte>>,
                       next: nat, initial: Stats, written: seq<byte>, current: seq<Job>,
                       code: seq<byte>)
    requires ValidScan(s) && ValidStats(zeroed) && ValidJobs(s, current)
    requires ValidStats(initial) && WrittenSoFar(s, segs, zeroed, codes, next, initial, written)
    requires IsCode(Run(Coder(START, initial), JobDecisions(s, StartPred(s), current)).iv, code)
    ensures var end := Run(Coder(START, initial), JobDecisions(s, StartPred(s), current));
      WrittenSoFar(s, segs + [current], zeroed, codes + [code], (next + 1) % 8,
                   ZeroAreas(end.stats, Areas(s)), written + Finished(code, next))
  {
    hide Run, IsCode, JobDecisions, ValidStats, Areas, ZeroAreas, Stuff, ScanCodes, StatsAfter, Closed;
    ScanCodesSnoc(s, segs, zeroed, codes, current, code);
    ClosedSnoc(codes, 0, code);
    assert Finished(code, |codes|) == Finished(code, next);
  }

  lemma ScanWritten(s: Scan, segs: seq<seq<Job>>, zeroed: Stats, codes: seq<seq<byte>>,
                    next: nat, initial: Stats, written: seq<byte>, current: seq<Job>, code: seq<byte>)
    requires ValidScan(s) && ValidStats(zeroed) && ValidJobs(s, current)
    requires ValidStats(initial) && WrittenSoFar(s, segs, zeroed, codes, next, initial, written)
    requires IsCode(Run(Coder(START, initial), JobDecisions(s, StartPred(s), current)).iv, code)
    ensures AllValidJobs(s, segs + [current])
    ensures ScanCodes(s, segs + [current], zeroed, codes + [code])
    ensures ScanBytes(codes + [code], 0, []) == written + Stuff(code)
  {
    hide Run, IsCode, JobDecisions, ValidStats, Areas, ZeroAreas, Stuff, ScanCodes, StatsAfter, Closed,
      ScanBytes;
    ScanCodesSnoc(s, segs, zeroed, codes, current, code);
    ClosedScan(codes, 0, code, []);
  }

  /** The part of the entropy encoder's state that spans segments. */
  class ScanEncoder {
    const enc: ArithEncoder
    const scan: Scan
    const order: seq<nat>
    const membership: seq<nat>     // component of each block of an MCU
    const restartInterval: nat
    var pred: Pred                 // DC predictions and contexts
    var restartsToGo: nat
    var nextRestartNum: nat

    ghost const prior: seq<byte>         // written before the scan
    ghost const zeroed: Stats            // bins at the start
    ghost var mcus: seq<seq<Job>>        // all MCUs so far
    ghost var segs: seq<seq<Job>>        // finished segments
    ghost var current: seq<Job>          // blocks of the segment in progress
    ghost var codes: seq<seq<byte>>      // codes of the finished segments

    ghost predicate Parameters()
    {
      && ValidScan(scan) && IsOrder(order) && ValidStats(zeroed)
      && (forall i :: 0 <= i < |membership| ==> membership[i] < |scan.comps|)
      && (scan.mode == AcFirst || scan.mode == AcRefine ==> membership == [0])
    }

    /** Predictions and bins are those of the blocks coded in this segment. */
    ghost predicate InSegment()
      reads this, enc
    {
      Parameters() && enc.Valid() && Follows(scan, current, enc.history, pred)
    }

    /** What has been written is the finished segments. */
    ghost predicate Closing()
      reads this, enc
    {
      && Parameters() && nextRestartNum < 8 && prior <= enc.before
      && WrittenSoFar(scan, segs, zeroed, codes, nextRestartNum, enc.initial,
                      enc.before[|prior|..])
    }

    ghost predicate Valid()
      reads this, enc
    {
      InSegment() && Closing() && Grouped(mcus, segs, current, restartInterval, restartsToGo)
    }

    /** start_pass. */
    constructor (e: ArithEncoder, s: Scan, order: seq<nat>, membership: seq<nat>, interval: nat)
      requires ValidScan(s) && IsOrder(order) && e.Valid() && e.history == [] && ValidStats(e.initial)
      requires forall i :: 0 <= i < |membership| ==> membership[i] < |s.comps|
      requires s.mode == AcFirst || s.mode == AcRefine ==> membership == [0]
      ensures Valid() && mcus == [] && prior == e.before && zeroed == e.initial && enc == e
      ensures scan == s && this.order == order && this.membership == membership
      ensures restartInterval == interval
    {
      enc, scan, this.order, this.membership, restartInterval := e, s, order, membership, interval;
      pred, restartsToGo, nextRestartNum := StartPred(s), interval, 0;
      prior, zeroed, mcus, segs, current, codes := e.before, e.initial, [], [], [], [];
    }

    /** emit_restart: finish the segment and start the next one. */
    method EmitRestart()
      requires InSegment() && Closing()
      modifies enc, `pred, `nextRestartNum, `segs, `current, `codes
      ensures InSegment() && Closing()
      ensures segs == old(segs) + [old(current)] && current == []
    {
      hide ArithEncoder.Valid, Run, IsCode, JobDecisions, ValidStats, Areas, ZeroAreas, Stuff, WrittenSoFar,
        StartPred, AfterJobs;
      enc.Kept();
      FollowsKept(scan, current, enc.history, pred);
      FollowsStart(scan);
      ghost var written := enc.before[|prior|..];
      ghost var code := enc.EmitRestart(nextRestartNum, Areas(scan));
      SegmentWritten(scan, segs, zeroed, codes, nextRestartNum, old(enc.initial), written, current, code);
      assert enc.before[|prior|..] == written + Finished(code, nextRestartNum);
      if scan.mode == Sequential || scan.mode == DcFirst {
        pred := StartPred(scan);
      }
      nextRestartNum := (nextRestartNum + 1) % 8;
      segs, current, codes := segs + [current], [], codes + [code];
    }

    /** Code the blocks of one MCU. */
    method EncodeBlocks(blocks: seq<Zigzag>)
      requires InSegment() && |blocks| == |membership|
      requires forall i :: 0 <= i < |blocks| ==> IsJcoef(blocks[i])
      modifies enc, `pred, `current
      ensures InSegment() && current == old(current) + McuJobs(order, membership, blocks)
      ensures enc.before == old(enc.before) && enc.initial == old(enc.initial)
    {
      hide ArithEncoder.Valid, BlockDecisions, AfterBlock, ValidStats, InZigzag, IsJcoef, Follows;
      for blkn := 0 to |blocks|
        invariant InSegment()
        invariant current == old(current) + McuJobs(order, membership, blocks)[..blkn]
        invariant enc.before == old(enc.before) && enc.initial == old(enc.initial)
      {
        var ci, block := membership[blkn], blocks[blkn];
        ghost var job := McuJobs(order, membership, blocks)[blkn];
        InZigzagJcoef(order, block);
        FollowsKept(scan, current, enc.history, pred);
        FollowsNext(scan, current, enc.history, pred, job);
        pred := EncodeBlock(enc, scan, pred, ci, order, block);
        current := current + [job];
      }
    }

    /** One MCU, with a restart before it when the interval is used up. */
    method EncodeMcu(blocks: seq<Zigzag>)
      requires Valid() && |blocks| == |membership|
      requires forall i :: 0 <= i < |blocks| ==> IsJcoef(blocks[i])
      modifies this, enc
      ensures Valid() && mcus == old(mcus) + [McuJobs(order, membership, blocks)]
    {
      hide ArithEncoder.Valid, IsJcoef, Follows, WrittenSoFar, McuJobs, Grouped;
      ghost var mcu := McuJobs(order, membership, blocks);
      GroupedNext(mcus, segs, current, restartInterval, restartsToGo, mcu);
      if restartInterval != 0 {
        if restartsToGo == 0 {
          EmitRestart();
          restartsToGo := restartInterval;
        }
        restartsToGo := restartsToGo - 1;
      }
      EncodeBlocks(blocks);
      mcus := mcus + [mcu];
    }

    /** finish_pass. */
    method FinishPass()
      requires Valid()
      modifies this, enc
      ensures mcus == old(mcus)
      ensures AllValidJobs(scan, Segments(mcus, restartInterval))
      ensures ScanCodes(scan, Segments(mcus, restartInterval), zeroed, codes)
      ensures enc.out == prior + ScanBytes(codes, 0, [])
    {
      hide ArithEncoder.Valid, ArithEncoder.Ready, Run, IsCode, JobDecisions, Stuff, Segments,
        WrittenSoFar, ScanCodes, ScanBytes, ValidStats, AllValidJobs;
      enc.Kept();
      enc.FinishPass();
      ghost var written := enc.before[|prior|..];
      ScanWritten(scan, segs, zeroed, codes, nextRestartNum, enc.initial, written, current, enc.emitted);
      assert enc.out == prior + (written + Stuff(enc.emitted));
      codes := codes + [enc.emitted];
    }
  }
}
