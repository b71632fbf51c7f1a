/** A whole scan through the Huffman encoder object, in any mode, whether it outputs
    bits or gathers statistics: MCUs and restarts. */
module HuffmanScanEncoding {
  import opened Bytes
  import opened Coefficients
  import opened RestartGroups
  import opened HuffmanWriter
  import opened HuffmanBlock
  import opened HuffmanScan
  import opened HuffmanSink
  import opened ProgressiveTokens
  import opened ProgressiveEncoding
  import M = HuffmanMcuEncoding
  // ------------------------------------------------------------ one job more

  lemma {:induction false} JobsSnoc(s: Scan, e: State, jobs: seq<Job>, job: Job)
    requires ValidScan(s) && ValidState(s, e) && job.ci < s.comps
    requires forall i :: 0 <= i < |jobs| ==> jobs[i].ci < s.comps
    ensures forall i :: 0 <= i < |jobs + [job]| ==> (jobs + [job])[i].ci < s.comps
    ensures var f := AfterJobs(s, e, jobs);
      && AfterJobs(s, e, jobs + [job]) == AfterJob(s, f, job)
      && JobsTagged(s, e, jobs + [job]) == JobsTagged(s, e, jobs) + Tag(job.ci, JobTokens(s, f, job))
      && (AllInRange(s, e, jobs + [job]) <==> AllInRange(s, e, jobs) && JobInRange(s, f, job))
    decreases |jobs|
  {
    hide JobTokens, AfterJob, JobInRange, Tag, ValidState;
    if jobs == [] {
      assert jobs + [job] == [job] && [job][1..] == [];
      var t := Tag(job.ci, JobTokens(s, e, job));
      assert t + [] == [] + t;
    } else {
      assert (jobs + [job])[0] == jobs[0] && (jobs + [job])[1..] == jobs[1..] + [job];
      var next := AfterJob(s, e, jobs[0]);
      JobsSnoc(s, next, jobs[1..], job);
      Regroup(Tag(jobs[0].ci, JobTokens(s, e, jobs[0])), JobsTagged(s, next, jobs[1..]),
              Tag(job.ci, JobTokens(s, AfterJobs(s, next, jobs[1..]), job)));
    }
  }

  /** State and tokens are those of the blocks `current` of a segment. */
  ghost predicate Follows(s: Scan, current: seq<Job>, e: State, sent: seq<Tagged>)
    requires ValidScan(s)
  {
    && ValidJobs(s, current) && e == AfterJobs(s, Start(s), current)
    && sent == JobsTagged(s, Start(s), current) && AllInRange(s, Start(s), current)
  }

  lemma FollowsStart(s: Scan)
    requires ValidScan(s)
    ensures Follows(s, [], Start(s), []) && Start(s) == State(Start(s).last, NONE) && |Start(s).last| == s.comps
  {
  }

  lemma FollowsNext(s: Scan, current: seq<Job>, e: State, sent: seq<Tagged>, job: Job)
    requires ValidScan(s) && Follows(s, current, e, sent) && job.ci < s.comps && IsJcoef(job.block)
    ensures ValidState(s, e) && ValidJobs(s, current + [job])
    ensures JobInRange(s, e, job) ==>
              Follows(s, current + [job], AfterJob(s, e, job), sent + Tag(job.ci, JobTokens(s, e, job)))
    ensures AllInRange(s, Start(s), current + [job]) <==> JobInRange(s, e, job)
    ensures JobsTagged(s, Start(s), current + [job]) == sent + Tag(job.ci, JobTokens(s, e, job))
  {
    hide JobTokens, AfterJob, JobInRange, Tag, IsJcoef;
    JobsSnoc(s, Start(s), current, job);
  }

  // ---------------------------------------------------------------- segments

  /** All tokens of finished segments. */
  function AllTagged(s: Scan, segs: seq<seq<Job>>): seq<Tagged>
    requires ValidScan(s) && forall i, j :: 0 <= i < |segs| && 0 <= j < |segs[i]| ==> segs[i][j].ci < s.comps
  {
    if segs == [] then []
    else AllTagged(s, segs[..|segs| - 1]) + SegmentTagged(s, Start(s), segs[|segs| - 1])
  }

  ghost predicate AllValidJobs(s: Scan, segs: seq<seq<Job>>)
  {
    forall i :: 0 <= i < |segs| ==> ValidJobs(s, segs[i])
  }

  lemma ValidTagged(s: Scan, segs: seq<seq<Job>>)
    requires AllValidJobs(s, segs)
    ensures forall i, j :: 0 <= i < |segs| && 0 <= j < |segs[i]| ==> segs[i][j].ci < s.comps
  {
    forall i, j | 0 <= i < |segs| && 0 <= j < |segs[i]|
      ensures segs[i][j].ci < s.comps
    {
      assert ValidJobs(s, segs[i]);
    }
  }

  /** What a sink has of the finished segments: their tokens, and in an output pass
      their bytes with restart markers. */
  ghost predicate WrittenSoFar(s: Scan, gather: bool, ts: seq<CompTables>, segs: seq<seq<Job>>, codes: seq<seq<byte>>,
                               next: nat, written: seq<byte>, tokens: seq<Tagged>)
    requires ValidScan(s)
  {
    && AllValidJobs(s, segs) && next == |segs| % 8
    && (forall i, j :: 0 <= i < |segs| && 0 <= j < |segs[i]| ==> segs[i][j].ci < s.comps)
    && tokens == AllTagged(s, segs) && (forall i :: 0 <= i < |segs| ==> AllInRange(s, Start(s), segs[i]))
    && (!gather ==> ScanCodes(s, ts, segs, codes) && written == Closed(codes, 0))
  }

  lemma NothingWritten(s: Scan, gather: bool, ts: seq<CompTables>)
    requires ValidScan(s)
    ensures WrittenSoFar(s, gather, ts, [], [], 0, [], [])
  {
  }

  lemma SegmentWritten(s: Scan, gather: bool, ts: seq<CompTables>, segs: seq<seq<Job>>, codes: seq<seq<byte>>,
                       next: nat, written: seq<byte>, tokens: seq<Tagged>, current: seq<Job>, e: State,
                       sent: seq<Tagged>, code: seq<byte>)
    requires ValidScan(s) && WrittenSoFar(s, gather, ts, segs, codes, next, written, tokens)
    requires Follows(s, current, e, sent)
    requires !gather ==> HaveAll(ts, sent + Flush(e)) && IsSegment(code, TaggedBits(ts, sent + Flush(e)))
    ensures WrittenSoFar(s, gather, ts, segs + [current], codes + [code], (next + 1) % 8,
                         if gather then [] else written + Finished(code, next), tokens + (sent + Flush(e)))
    ensures !gather ==> ScanBytes(codes + [code], 0, []) == written + Stuff(code)
  {
    hide IsSegment, Stuff, Closed, ScanBytes, TaggedBits, HaveAll, AllInRange, JobsTagged, AfterJobs, Flush, IsJcoef,
      ScanCodes, ValidJobs, Finished, AllTagged;
    TokensWritten(s, segs, tokens, current, e, sent);
    if !gather {
      CodesSnoc(s, ts, segs, codes, current, code);
      ClosedSnoc(codes, 0, code);
      ClosedScan(codes, 0, code, []);
      NextFinished(code, |codes|, next);
      assert Stuff(code) + [] == Stuff(code);
    }
  }

  lemma NextFinished(code: seq<byte>, n: nat, next: nat)
    requires next == n % 8
    ensures Finished(code, n) == Finished(code, next)
  {
  }

  lemma TokensWritten(s: Scan, segs: seq<seq<Job>>, tokens: seq<Tagged>, current: seq<Job>, e: State,
                      sent: seq<Tagged>)
    requires ValidScan(s) && Follows(s, current, e, sent) && AllValidJobs(s, segs)
    requires forall i, j :: 0 <= i < |segs| && 0 <= j < |segs[i]| ==> segs[i][j].ci < s.comps
    requires tokens == AllTagged(s, segs) && forall i :: 0 <= i < |segs| ==> AllInRange(s, Start(s), segs[i])
    ensures var all := segs + [current];
      && AllValidJobs(s, all) && (forall i, j :: 0 <= i < |all| && 0 <= j < |all[i]| ==> all[i][j].ci < s.comps)
      && AllTagged(s, all) == tokens + (sent + Flush(e))
      && forall i :: 0 <= i < |all| ==> AllInRange(s, Start(s), all[i])
    ensures ValidJobs(s, current) && AllInRange(s, Start(s), current)
    ensures sent + Flush(e) == SegmentTagged(s, Start(s), current)
  {
    hide AllInRange, JobsTagged, AfterJobs, Flush, ValidJobs;
    var all := segs + [current];
    assert all[..|all| - 1] == segs && all[|all| - 1] == current;
    assert forall i :: 0 <= i < |segs| ==> all[i] == segs[i];
    ValidTagged(s, all);
  }

  lemma CodesSnoc(s: Scan, ts: seq<CompTables>, segs: seq<seq<Job>>, codes: seq<seq<byte>>, seg: seq<Job>,
                  code: seq<byte>)
    requires ValidScan(s) && (forall i :: 0 <= i < |segs| ==> ValidJobs(s, segs[i])) && ValidJobs(s, seg)
    requires ScanCodes(s, ts, segs, codes) && Accepted(s, ts, seg) && IsSegment(code, SegmentBits(s, ts, seg))
    ensures |codes| == |segs| && forall i :: 0 <= i < |segs + [seg]| ==> ValidJobs(s, (segs + [seg])[i])
    ensures ScanCodes(s, ts, segs + [seg], codes + [code])
  {
    hide IsSegment, SegmentBits, Accepted, ValidJobs;
  }

  function McuJobs(order: seq<nat>, membership: seq<nat>, blocks: seq<Zigzag>): (jobs: seq<Job>)
    requires IsOrder(order) && |membership| == |blocks|
    ensures |jobs| == |blocks|
    ensures forall i :: 0 <= i < |blocks| ==> jobs[i] == Job(membership[i], InZigzag(order, blocks[i]))
  {
    seq(|blocks|, i requires 0 <= i < |blocks| => Job(membership[i], InZigzag(order, blocks[i])))
  }

  lemma ZigzagFirst(order: seq<nat>, block: Zigzag)
    requires IsOrder(order)
    ensures InZigzag(order, block)[0] == block[0]
  {
  }

  lemma DcTokensIs(diff: int)
    ensures DcTokens(diff) == [DcSymbol(Category(diff))]
                              + (if diff == 0 then [] else [Extra(Complemented(diff), Category(diff))])
    ensures Category(diff) == Category(Abs(diff)) && (Category(diff) == 0 <==> diff == 0) && MAX_COEF_BITS == 10
  {
  }

  /** encode_mcu_DC_first: a DC difference. */
  method EncodeDcDiff(sink: SymbolSink, ci: nat, diff: int) returns (ok: bool)
    requires sink.Valid() && ci < |sink.dcTbl|
    modifies sink, sink.w, sink.dcCounts, sink.acCounts
    ensures ok <==> Category(diff) <= MAX_COEF_BITS + 1 && sink.Takes(ci, DcTokens(diff))
    ensures ok ==> sink.Took(old(sink.Now()), ci, DcTokens(diff))
  {
    hide *;
    DcTokensIs(diff);
    var nbits := M.NumberOfBits(Abs(diff));
    if nbits > 10 + 1 {
      return false;
    }
    ghost var was, sym := sink.Now(), [DcSymbol(nbits)];
    ghost var ext := if diff == 0 then [] else [Extra(Complemented(diff), nbits)];
    sink.TakesSplit(ci, sym, ext);
    SymbolIs(true, nbits);
    ok := sink.EmitSymbol(true, ci, nbits);
    if !ok {
      return;
    }
    sink.TookMeans(was, ci, sym);
    ghost var mid := sink.Now();
    if nbits != 0 {
      sink.EmitBits(ci, Complemented(diff), nbits);
    } else {
      sink.Begin(ci);
    }
    sink.TookMore(was, mid, ci, sym, ext);
  }

  lemma {:induction false} AcKeepsLast(s: Scan, e: State, jobs: seq<Job>)
    requires ValidScan(s) && ValidState(s, e) && IsAc(s.mode) && forall i :: 0 <= i < |jobs| ==> jobs[i].ci < s.comps
    ensures AfterJobs(s, e, jobs).last == e.last
    decreases |jobs|
  {
    hide BandPending, BandOf;
    if jobs != [] {
      AcKeepsLast(s, AfterJob(s, e, jobs[0]), jobs[1..]);
    }
  }

  /** The encoder's state beyond its sink. */
  class ScanEncoder {
    const sink: SymbolSink
    const ac: AcEncoder
    const scan: Scan
    const order: seq<nat>
    const membership: seq<nat>
    const restartInterval: nat
    var lastDc: seq<int>
    var restartsToGo: nat
    var nextRestartNum: nat

    ghost const prior: seq<byte>         // written before the scan
    ghost var mcus: seq<seq<Job>>        // all MCUs so far
    ghost var segs: seq<seq<Job>>        // finished segments
    ghost var current: seq<Job>          // blocks of the segment in progress
    ghost var codes: seq<seq<byte>>      // bytes of the finished segments
    ghost var tokens: seq<Tagged>        // and their tokens

    ghost predicate Parameters()
    {
      && ValidScan(scan) && IsOrder(order) && ac.sink == sink && |sink.dcTbl| == scan.comps
      && (forall i :: 0 <= i < |membership| ==> membership[i] < scan.comps)
      && (IsAc(scan.mode) ==> |membership| == 1)
    }

    /** DC predictions and the pending run. */
    ghost function Now(): State
      requires ac.Own()
      reads `lastDc, ac, ac.bitBuffer
    {
      State(lastDc, ac.Pend())
    }

    ghost predicate InSegment()
      reads `lastDc, `current, `tokens, ac, ac.bitBuffer, sink, sink.w, sink.dcCounts, sink.acCounts
    {
      && Parameters() && sink.Valid() && ac.Own() && Follows(scan, current, Now(), sink.sent)
      && sink.total == tokens + sink.sent && (!sink.gather ==> HaveAll(sink.tables, sink.sent))
      && (scan.mode != AcRefine ==> ac.be == 0)
    }

    ghost predicate Closing()
      reads `segs, `codes, `nextRestartNum, `tokens, sink.w`before
    {
      && Parameters() && (!sink.gather ==> prior <= sink.w.before)
      && WrittenSoFar(scan, sink.gather, sink.tables, segs, codes, nextRestartNum,
                      if sink.gather then [] else sink.w.before[|prior|..], tokens)
    }

    ghost predicate Valid()
      reads this, ac, ac.bitBuffer, sink, sink.w, sink.dcCounts, sink.acCounts
    {
      InSegment() && Closing() && Grouped(mcus, segs, current, restartInterval, restartsToGo)
    }

    lemma Means()
      requires InSegment()
      ensures Parameters() && ValidScan(scan) && IsOrder(order) && ac.sink == sink && |sink.dcTbl| == scan.comps
      ensures forall i :: 0 <= i < |membership| ==> membership[i] < scan.comps
      ensures IsAc(scan.mode) ==> |membership| == 1
      ensures sink.Valid() && ac.Own() && Follows(scan, current, Now(), sink.sent)
      ensures sink.total == tokens + sink.sent && (!sink.gather ==> HaveAll(sink.tables, sink.sent))
      ensures scan.mode != AcRefine ==> ac.be == 0
      ensures ValidState(scan, Now()) && Now() == State(lastDc, ac.Pend()) && |lastDc| == scan.comps
      ensures Within(ac.Pend()) && (!IsAc(scan.mode) ==> ac.Pend() == NONE)
    {
      hide SymbolSink.Valid, JobsTagged, AllInRange, HaveAll, ValidJobs, IsOrder;
    }

    lemma Remake()
      requires Parameters() && ValidScan(scan) && sink.Valid() && ac.Own() && Follows(scan, current, Now(), sink.sent)
      requires sink.total == tokens + sink.sent && (!sink.gather ==> HaveAll(sink.tables, sink.sent))
      requires scan.mode != AcRefine ==> ac.be == 0
      ensures InSegment()
    {
    }

    lemma Parts()
      requires Valid()
      ensures InSegment() && Closing() && Grouped(mcus, segs, current, restartInterval, restartsToGo)
    {
    }

    lemma Whole()
      requires InSegment() && Closing() && Grouped(mcus, segs, current, restartInterval, restartsToGo)
      ensures Valid()
    {
    }

    ghost function Output(): seq<byte>
      requires !sink.gather ==> |prior| <= |sink.w.before|
      reads sink.w`before
    {
      if sink.gather then [] else sink.w.before[|prior|..]
    }

    lemma Opened()
      requires Closing()
      ensures Parameters() && ValidScan(scan) && (!sink.gather ==> prior <= sink.w.before)
      ensures WrittenSoFar(scan, sink.gather, sink.tables, segs, codes, nextRestartNum, Output(), tokens)
      ensures nextRestartNum < 8
    {
      hide ScanCodes, AllTagged, Closed, AllInRange;
    }

    lemma Closed2()
      requires Parameters() && ValidScan(scan) && (!sink.gather ==> prior <= sink.w.before)
      requires WrittenSoFar(scan, sink.gather, sink.tables, segs, codes, nextRestartNum, Output(), tokens)
      ensures Closing()
    {
    }

    /** start_pass. */
    constructor (sink: SymbolSink, ac: AcEncoder, s: Scan, order: seq<nat>, membership: seq<nat>, interval: nat)
      requires ValidScan(s) && IsOrder(order) && sink.Valid() && sink.sent == sink.total == []
      requires ac.sink == sink && ac.Own() && ac.eobrun == 0 && |sink.dcTbl| == s.comps
      requires forall i :: 0 <= i < |membership| ==> membership[i] < s.comps
      requires IsAc(s.mode) ==> |membership| == 1
      ensures Valid() && mcus == [] && prior == sink.w.before && this.sink == sink && this.ac == ac
      ensures scan == s && this.order == order && this.membership == membership
      ensures restartInterval == interval
    {
      this.sink, this.ac, scan, this.order, this.membership, restartInterval :=
        sink, ac, s, order, membership, interval;
      lastDc, restartsToGo, nextRestartNum := Start(s).last, interval, 0;
      prior, mcus, segs, current, codes, tokens := sink.w.before, [], [], [], [], [];
      new;
      FollowsStart(s);
      NothingWritten(s, sink.gather, sink.tables);
      assert ac.bitBuffer[..0] == [];
    }

    /** The tokens of a job, by mode. */
    lemma JobIs(ci: nat, block: Zigzag)
      requires ValidScan(scan) && IsOrder(order) && ac.Own() && ValidState(scan, Now()) && ci < scan.comps
      requires |lastDc| == scan.comps && Now() == State(lastDc, ac.Pend())
      ensures var job, e, x := Job(ci, InZigzag(order, block)), Now(), InZigzag(order, block);
        match scan.mode
        case Sequential =>
          && JobTokens(scan, e, job) == BlockTokens(x[0] - lastDc[ci], x[1..scan.se + 1])
          && (JobInRange(scan, e, job) <==> InRange(x[0] - lastDc[ci], x[1..scan.se + 1]))
          && AfterJob(scan, e, job) == State(lastDc[ci := block[0]], ac.Pend())
        case DcFirst =>
          var dc := ShiftDown(block[0], scan.al);
          && JobTokens(scan, e, job) == DcTokens(dc - lastDc[ci])
          && (JobInRange(scan, e, job) <==> Category(dc - lastDc[ci]) <= MAX_COEF_BITS + 1)
          && AfterJob(scan, e, job) == State(lastDc[ci := dc], ac.Pend())
        case DcRefine =>
          && JobTokens(scan, e, job) == [Extra(ShiftDown(block[0], scan.al), 1)]
          && JobInRange(scan, e, job) && AfterJob(scan, e, job) == e
        case AcFirst =>
          var c := Points(x[scan.ss..scan.se + 1], scan.al);
          && JobTokens(scan, e, job) == BandTokens(false, ac.Pend(), c) && (JobInRange(scan, e, job) <==> SmallCoefs(c))
          && AfterJob(scan, e, job) == State(lastDc, BandPending(false, ac.Pend(), c))
        case AcRefine =>
          var c := Points(x[scan.ss..scan.se + 1], scan.al);
          && JobTokens(scan, e, job) == BandTokens(true, ac.Pend(), c) && JobInRange(scan, e, job)
          && AfterJob(scan, e, job) == State(lastDc, BandPending(true, ac.Pend(), c))
    {
      ZigzagFirst(order, block);
      hide InZigzag, IsOrder, BandTokens, BandPending, Points, ShiftDown, Category, BlockTokens, InRange, DcTokens,
        AcEncoder.Own, AcEncoder.Pend;
    }

    /** The block's tokens go into the sink, by mode. */
    method EncodeByMode(ci: nat, block: Zigzag) returns (ok: bool)
      requires ValidScan(scan) && IsOrder(order) && ac.sink == sink && |sink.dcTbl| == scan.comps
      requires sink.Valid() && ac.Own() && ValidState(scan, Now()) && |lastDc| == scan.comps && ci < scan.comps
      requires Now() == State(lastDc, ac.Pend()) && Within(ac.Pend())
      requires (IsAc(scan.mode) ==> ci == 0) && (scan.mode != AcRefine ==> ac.be == 0)
      modifies `lastDc, ac, ac.bitBuffer, sink, sink.w, sink.dcCounts, sink.acCounts
      ensures ac.Own() && (ok && scan.mode != AcRefine ==> ac.be == 0)
      ensures ok <==> && JobInRange(scan, old(Now()), Job(ci, InZigzag(order, block)))
                      && sink.Takes(ci, JobTokens(scan, old(Now()), Job(ci, InZigzag(order, block))))
      ensures ok ==> && sink.Took(old(sink.Now()), ci, JobTokens(scan, old(Now()), Job(ci, InZigzag(order, block))))
                     && Now() == AfterJob(scan, old(Now()), Job(ci, InZigzag(order, block)))
    {
      hide *;
      ScanMeans(scan);
      JobIs(ci, block);
      ac.OwnMeans();
      ac.PendIs();
      ghost var bits := ac.bitBuffer[..];
      ZigzagFirst(order, block);
      match scan.mode {
        case Sequential =>
          ok := sink.SequentialBlock(ci, order, block, lastDc[ci], scan.se);
          ac.PendIs();
          if ok {
            lastDc := lastDc[ci := block[0]];
          }
        case DcFirst =>
          var dc := ShiftDown(block[0], scan.al);
          ok := EncodeDcDiff(sink, ci, dc - lastDc[ci]);
          ac.PendIs();
          if ok {
            lastDc := lastDc[ci := dc];
          }
        case DcRefine =>
          sink.EmitBits(ci, ShiftDown(block[0], scan.al), 1);
          ac.PendIs();
          ok := true;
        case AcFirst =>
          ok := ac.EncodeFirst(order, block, scan.ss, scan.se, scan.al);
        case AcRefine =>
          ok := ac.EncodeRefine(order, block, scan.ss, scan.se, scan.al);
      }
      NowIs();
    }

    lemma NowIs()
      requires ac.Own()
      ensures Now() == State(lastDc, ac.Pend())
    {
    }

    /** One block of an MCU; refused for values out of range or a missing code. */
    method EncodeOne(ci: nat, block: Zigzag) returns (ok: bool)
      requires InSegment() && ci < scan.comps && IsJcoef(block) && (IsAc(scan.mode) ==> ci == 0)
      modifies `lastDc, `current, ac, ac.bitBuffer, sink, sink.w, sink.dcCounts, sink.acCounts
      ensures IsOrder(order) && ValidScan(scan) && ac.sink == sink
      ensures |old(lastDc)| == scan.comps && old(ac.Own()) && old(ValidState(scan, Now()))
      ensures ok <==> && JobInRange(scan, old(Now()), Job(ci, InZigzag(order, block)))
                      && sink.Takes(ci, JobTokens(scan, old(Now()), Job(ci, InZigzag(order, block))))
      ensures ok ==> InSegment() && current == old(current) + [Job(ci, InZigzag(order, block))]
      ensures ok && !sink.gather ==> sink.w.before == old(sink.w.before)
    {
      hide *;
      Means();
      ghost var job, e, was := Job(ci, InZigzag(order, block)), Now(), sink.Now();
      InZigzagJcoef(order, block);
      FollowsNext(scan, current, e, sink.sent, job);
      sink.NowIs();
      ok := EncodeByMode(ci, block);
      if ok {
        current := current + [job];
        sink.TookMeans(was, ci, JobTokens(scan, e, job));
        sink.NowIs();
        ExtendsMeans(sink.gather, was, sink.Now(), ci, JobTokens(scan, e, job));
        Regroup(tokens, was.sent, Tag(ci, JobTokens(scan, e, job)));
        sink.TakesMeans(ci, JobTokens(scan, e, job));
        TaggedAppend(sink.tables, was.sent, Tag(ci, JobTokens(scan, e, job)));
        Remake();
      }
    }

    /** emit_restart: what is pending is sent, and the segment ends. */
    method EmitRestart() returns (ok: bool)
      requires InSegment() && Closing()
      modifies `lastDc, `nextRestartNum, `segs, `current, `codes, `tokens,
               ac, sink, sink.w, sink.dcCounts, sink.acCounts
      ensures ok ==> InSegment() && Closing() && segs == old(segs) + [old(current)] && current == []
      ensures ValidScan(scan) && ValidJobs(scan, old(current))
      ensures !ok ==> !sink.gather && !HaveAll(sink.tables, SegmentTagged(scan, Start(scan), old(current)))
    {
      hide *;
      Means();
      Opened();
      OutputIs();
      ghost var out, e, sent, before := Output(), Now(), sink.sent, sink.w.before;
      FollowsMeans(scan, current, e, sent);
      StartAgain(scan, current, e, sent);
      FollowsStart(scan);
      ok := EndSegment();
      if !ok {
        return;
      }
      ghost var code := sink.Restart(nextRestartNum);
      SegmentWritten(scan, sink.gather, sink.tables, segs, codes, nextRestartNum, out, tokens, current, e, sent, code);
      if !sink.gather {
        NextOutput(prior, before, code, nextRestartNum);
      }
      OutputIs();
      BeginSegment(code, tokens + (sent + Flush(e)));
    }

    /** Predictions are reset; nothing is pending. */
    method BeginSegment(ghost code: seq<byte>, ghost more: seq<Tagged>)
      requires Parameters() && ValidScan(scan) && sink.Valid() && sink.sent == [] && sink.total == more
      requires ac.Own() && ac.eobrun == ac.be == 0 && (!sink.gather ==> prior <= sink.w.before)
      requires scan.ss != 0 ==> lastDc == Start(scan).last
      requires WrittenSoFar(scan, sink.gather, sink.tables, segs + [current], codes + [code],
                            (nextRestartNum + 1) % 8, Output(), more)
      modifies `lastDc, `nextRestartNum, `segs, `current, `codes, `tokens
      ensures InSegment() && Closing() && segs == old(segs) + [old(current)] && current == []
    {
      hide *;
      FollowsStart(scan);
      if scan.ss == 0 {
        lastDc := Start(scan).last;
      }
      segs, current, codes, tokens := segs + [current], [], codes + [code], more;
      nextRestartNum := (nextRestartNum + 1) % 8;
      ac.EmptyPend();
      NowIs();
      NoneTagged(sink.tables);
      assert tokens + [] == tokens;
      Remake();
      Closed2();
    }

    lemma OutputIs()
      requires !sink.gather ==> |prior| <= |sink.w.before|
      ensures sink.gather ==> Output() == []
      ensures !sink.gather ==> Output() == sink.w.before[|prior|..]
    {
    }

    /** emit_eobrun at the end of a segment. */
    method EndSegment() returns (ok: bool)
      requires InSegment()
      modifies ac, sink, sink.w, sink.dcCounts, sink.acCounts
      ensures ValidScan(scan) && ValidJobs(scan, current) && Parameters() && ac.Own()
      ensures !ok ==> !sink.gather && !HaveAll(sink.tables, SegmentTagged(scan, Start(scan), current))
      ensures ok ==> && sink.Valid() && ac.eobrun == ac.be == 0
                     && sink.sent == SegmentTagged(scan, Start(scan), current)
                     && sink.total == tokens + sink.sent && (!sink.gather ==> HaveAll(sink.tables, sink.sent))
                     && (!sink.gather ==> sink.w.before == old(sink.w.before))
      ensures Follows(scan, current, old(Now()), old(sink.sent)) && lastDc == old(lastDc)
    {
      hide *;
      Means();
      FollowsMeans(scan, current, Now(), sink.sent);
      ghost var e, was := Now(), sink.Now();
      sink.NowIs();
      FlushIs(e);
      ghost var ks := Eob(ac.eobrun, ac.Pend().bits);
      ac.PendIs();
      TaggedAppend(sink.tables, sink.sent, Tag(0, ks));
      ok := ac.EmitEobrun();
      sink.TakesIs(0, ks);
      if ok {
        sink.TookMeans(was, 0, ks);
        sink.NowIs();
        ExtendsMeans(sink.gather, was, sink.Now(), 0, ks);
        Regroup(tokens, was.sent, Tag(0, ks));
      }
    }

    /** The blocks of an MCU. */
    method EncodeBlocks(blocks: seq<Zigzag>) returns (ok: bool)
      requires InSegment() && |blocks| == |membership|
      requires forall i :: 0 <= i < |blocks| ==> IsJcoef(blocks[i])
      modifies `lastDc, `current, ac, ac.bitBuffer, sink, sink.w, sink.dcCounts, sink.acCounts
      ensures IsOrder(order) && ValidScan(scan)
      ensures ok ==> InSegment() && current == old(current) + McuJobs(order, membership, blocks)
      ensures ok && !sink.gather ==> sink.w.before == old(sink.w.before)
      ensures ValidJobs(scan, old(current) + McuJobs(order, membership, blocks))
      ensures !ok ==> !Good(scan, sink.gather, sink.tables, old(current) + McuJobs(order, membership, blocks))
    {
      hide *;
      Means();
      ScanMeans(scan);
      ghost var jobs, was := McuJobs(order, membership, blocks), current;
      McuValid(scan, order, membership, blocks, current, Now(), sink.sent);
      assert jobs[..0] == [] && was + [] == was;
      for i := 0 to |blocks|
        invariant InSegment() && current == was + jobs[..i]
        invariant !sink.gather ==> sink.w.before == old(sink.w.before)
      {
        Means();
        assert jobs[..i + 1] == jobs[..i] + [jobs[i]] && jobs == jobs[..i + 1] + jobs[i + 1..];
        Regroup(was, jobs[..i], [jobs[i]]);
        Regroup(was, jobs[..i + 1], jobs[i + 1..]);
        JcoefZigzag(order, blocks[i]);
        GoodNext(scan, sink.gather, sink.tables, current, Now(), sink.sent, jobs[i]);
        GoodPrefix(scan, sink.gather, sink.tables, was + jobs[..i + 1], jobs[i + 1..]);
        sink.TakesIs(jobs[i].ci, JobTokens(scan, Now(), jobs[i]));
        ok := EncodeOne(membership[i], blocks[i]);
        if !ok {
          return;
        }
      }
      assert jobs[..|blocks|] == jobs;
      ok := true;
    }

    /** One MCU, with a restart before it when the interval is used up.  Refused only for
        values out of range, or tokens without a code. */
    method EncodeMcu(blocks: seq<Zigzag>) returns (ok: bool)
      requires Valid() && |blocks| == |membership|
      requires forall i :: 0 <= i < |blocks| ==> IsJcoef(blocks[i])
      modifies this, ac, ac.bitBuffer, sink, sink.w, sink.dcCounts, sink.acCounts
      ensures IsOrder(order) && ValidScan(scan)
      ensures ok ==> Valid() && mcus == old(mcus) + [McuJobs(order, membership, blocks)]
      ensures AllValidJobs(scan, Segments(old(mcus) + [McuJobs(order, membership, blocks)], restartInterval))
      ensures !ok ==> !Going(scan, sink.gather, sink.tables,
                             Segments(old(mcus) + [McuJobs(order, membership, blocks)], restartInterval))
    {
      hide *;
      Parts();
      Means();
      Opened();
      ghost var mcu := McuJobs(order, membership, blocks);
      McuValid(scan, order, membership, blocks, current, Now(), sink.sent);
      FollowsStart(scan);
      McuValid(scan, order, membership, blocks, [], Start(scan), []);
      SoFarValid(scan, sink.gather, sink.tables, segs, codes, nextRestartNum, Output(), tokens);
      GroupedNext(mcus, segs, current, restartInterval, restartsToGo, mcu);
      if restartInterval != 0 && restartsToGo == 0 {
        AddValid(scan, segs, current);
        AddValid(scan, segs + [current], [] + mcu);
        GroupedMeans(mcus + [mcu], segs + [current], [] + mcu, restartInterval, restartInterval - 1);
        ok := EmitRestart();
        if !ok {
          EndRefused(scan, sink.gather, sink.tables, old(segs), old(current), [] + mcu);
          return;
        }
        restartsToGo := restartInterval;
      } else {
        AddValid(scan, segs, current + mcu);
        GroupedMeans(mcus + [mcu], segs, current + mcu, restartInterval,
                     if restartInterval != 0 then restartsToGo - 1 else restartsToGo);
      }
      if restartInterval != 0 {
        restartsToGo := restartsToGo - 1;
      }
      Opened();
      OutputIs();
      ghost var was := current;
      ok := EncodeBlocks(blocks);
      if !ok {
        LastRefused(scan, sink.gather, sink.tables, segs, was + mcu);
        return;
      }
      mcus := mcus + [mcu];
      OutputIs();
      Closed2();
      Whole();
    }

    /** finish_pass: in an output pass the scan's segments have been written; in both
        passes the tokens of all segments have gone into the sink. */
    method FinishPass() returns (ok: bool)
      requires Valid()
      modifies this, ac, sink, sink.w, sink.dcCounts, sink.acCounts
      ensures mcus == old(mcus) && ValidScan(scan) && AllValidJobs(scan, Segments(mcus, restartInterval))
      ensures !ok ==> !sink.gather && !AllAccepted(scan, sink.tables, Segments(mcus, restartInterval))
      ensures ok && sink.gather ==>
                && TotalsOf(scan, sink, Segments(mcus, restartInterval))
                && forall i :: 0 <= i < |Segments(mcus, restartInterval)| ==>
                     AllInRange(scan, Start(scan), Segments(mcus, restartInterval)[i])
      ensures ok && !sink.gather ==>
                && ScanCodes(scan, sink.tables, Segments(mcus, restartInterval), codes)
                && sink.w.out == prior + ScanBytes(codes, 0, [])
    {
      hide *;
      Parts();
      Means();
      Opened();
      OutputIs();
      ghost var out, e, sent, before := Output(), Now(), sink.sent, sink.w.before;
      FollowsMeans(scan, current, e, sent);
      GroupedMeans(mcus, segs, current, restartInterval, restartsToGo);
      SoFarValid(scan, sink.gather, sink.tables, segs, codes, nextRestartNum, out, tokens);
      AddValid(scan, segs, current);
      ok := EndSegment();
      if !ok {
        LastNotAccepted(scan, sink.tables, segs, current);
        return;
      }
      ghost var code := sink.Finish();
      SegmentWritten(scan, sink.gather, sink.tables, segs, codes, nextRestartNum, out, tokens, current, e, sent, code);
      SoFarMeans(scan, sink.gather, sink.tables, segs + [current], codes + [code], (nextRestartNum + 1) % 8,
                 if sink.gather then [] else out + Finished(code, nextRestartNum), tokens + (sent + Flush(e)));
      codes := codes + [code];
      if sink.gather {
        TotalsAre(scan, sink, segs + [current], sink.total);
      } else {
        assert before == prior + out;
        Regroup(prior, out, Stuff(code));
      }
    }
  }

  ghost predicate AllAccepted(s: Scan, ts: seq<CompTables>, segs: seq<seq<Job>>)
    requires ValidScan(s) && AllValidJobs(s, segs)
  {
    forall i :: 0 <= i < |segs| ==> Accepted(s, ts, segs[i])
  }

  lemma LastNotAccepted(s: Scan, ts: seq<CompTables>, segs: seq<seq<Job>>, last: seq<Job>)
    requires ValidScan(s) && AllValidJobs(s, segs + [last]) && ValidJobs(s, last)
    requires !HaveAll(ts, SegmentTagged(s, Start(s), last))
    ensures !AllAccepted(s, ts, segs + [last])
  {
    hide HaveAll, SegmentTagged, ValidJobs, AllInRange;
    assert (segs + [last])[|segs|] == last;
  }

  lemma SoFarMeans(s: Scan, gather: bool, ts: seq<CompTables>, segs: seq<seq<Job>>, codes: seq<seq<byte>>, next: nat,
                   written: seq<byte>, tokens: seq<Tagged>)
    requires ValidScan(s) && WrittenSoFar(s, gather, ts, segs, codes, next, written, tokens)
    ensures AllValidJobs(s, segs) && (!gather ==> ScanCodes(s, ts, segs, codes))
    ensures forall i :: 0 <= i < |segs| ==> AllInRange(s, Start(s), segs[i])
    ensures forall i, j :: 0 <= i < |segs| && 0 <= j < |segs[i]| ==> segs[i][j].ci < s.comps
    ensures tokens == AllTagged(s, segs)
  {
  }

  lemma TotalsAre(s: Scan, sink: SymbolSink, segs: seq<seq<Job>>, total: seq<Tagged>)
    requires ValidScan(s) && AllValidJobs(s, segs)
    requires forall i, j :: 0 <= i < |segs| && 0 <= j < |segs[i]| ==> segs[i][j].ci < s.comps
    requires total == AllTagged(s, segs)
    requires Counted(Snap(sink.dcCounts), sink.dcTbl, total, true)
             && Counted(Snap(sink.acCounts), sink.acTbl, total, false)
    ensures TotalsOf(s, sink, segs)
  {
  }

  /** The counters hold how often each symbol occurs in the segments. */
  ghost predicate TotalsOf(s: Scan, sink: SymbolSink, segs: seq<seq<Job>>)
    requires ValidScan(s) && AllValidJobs(s, segs)
    reads sink.dcCounts, sink.acCounts
  {
    && (forall i, j :: 0 <= i < |segs| && 0 <= j < |segs[i]| ==> segs[i][j].ci < s.comps)
    && Counted(Snap(sink.dcCounts), sink.dcTbl, AllTagged(s, segs), true)
    && Counted(Snap(sink.acCounts), sink.acTbl, AllTagged(s, segs), false)
  }

  lemma GroupedMeans<T>(mcus: seq<seq<T>>, segs: seq<seq<T>>, current: seq<T>, interval: nat, togo: nat)
    requires Grouped(mcus, segs, current, interval, togo)
    ensures segs + [current] == Segments(mcus, interval)
  {
  }

  lemma SoFarValid(s: Scan, gather: bool, ts: seq<CompTables>, segs: seq<seq<Job>>, codes: seq<seq<byte>>, next: nat,
                   written: seq<byte>, tokens: seq<Tagged>)
    requires ValidScan(s) && WrittenSoFar(s, gather, ts, segs, codes, next, written, tokens)
    ensures AllValidJobs(s, segs)
  {
  }

  lemma AddValid(s: Scan, segs: seq<seq<Job>>, seg: seq<Job>)
    requires AllValidJobs(s, segs) && ValidJobs(s, seg)
    ensures AllValidJobs(s, segs + [seg])
  {
    hide ValidJobs;
  }

  lemma EndRefused(s: Scan, gather: bool, ts: seq<CompTables>, segs: seq<seq<Job>>, current: seq<Job>, mcu: seq<Job>)
    requires ValidScan(s) && AllValidJobs(s, segs + [current] + [mcu]) && ValidJobs(s, current)
    requires !gather && !HaveAll(ts, SegmentTagged(s, Start(s), current))
    ensures !Going(s, gather, ts, segs + [current] + [mcu])
  {
    hide HaveAll, SegmentTagged, Good, ValidJobs, AllInRange;
    var all := segs + [current] + [mcu];
    assert all[|segs|] == current;
  }

  lemma LastRefused(s: Scan, gather: bool, ts: seq<CompTables>, segs: seq<seq<Job>>, last: seq<Job>)
    requires ValidScan(s) && AllValidJobs(s, segs + [last]) && ValidJobs(s, last) && !Good(s, gather, ts, last)
    ensures !Going(s, gather, ts, segs + [last])
  {
    hide HaveAll, SegmentTagged, Good, ValidJobs, AllInRange;
  }

  ghost predicate Good(s: Scan, gather: bool, ts: seq<CompTables>, jobs: seq<Job>)
    requires ValidScan(s) && ValidJobs(s, jobs)
  {
    AllInRange(s, Start(s), jobs) && (gather || HaveAll(ts, JobsTagged(s, Start(s), jobs)))
  }

  lemma GoodNext(s: Scan, gather: bool, ts: seq<CompTables>, current: seq<Job>, e: State, sent: seq<Tagged>, job: Job)
    requires ValidScan(s) && Follows(s, current, e, sent) && job.ci < s.comps && IsJcoef(job.block)
    requires !gather ==> HaveAll(ts, sent)
    ensures ValidState(s, e) && ValidJobs(s, current + [job])
    ensures Good(s, gather, ts, current + [job]) <==>
            JobInRange(s, e, job) && (gather || HaveAll(ts, Tag(job.ci, JobTokens(s, e, job))))
  {
    hide AllInRange, JobsTagged, AfterJob, JobTokens, JobInRange, Tag, HaveAll, IsJcoef;
    FollowsNext(s, current, e, sent, job);
    TaggedAppend(ts, sent, Tag(job.ci, JobTokens(s, e, job)));
  }

  lemma {:induction false} GoodPrefix(s: Scan, gather: bool, ts: seq<CompTables>, a: seq<Job>, b: seq<Job>)
    requires ValidScan(s) && ValidJobs(s, a + b)
    ensures ValidJobs(s, a) && (Good(s, gather, ts, a + b) ==> Good(s, gather, ts, a))
    decreases |b|
  {
    hide AllInRange, JobsTagged, AfterJob, AfterJobs, JobTokens, JobInRange, Tag, HaveAll, IsJcoef;
    assert forall i :: 0 <= i < |a| ==> a[i] == (a + b)[i];
    if b == [] {
      assert a + b == a;
    } else {
      var c, job := b[..|b| - 1], b[|b| - 1];
      assert b == c + [job] && a + b == (a + c) + [job];
      assert forall i :: 0 <= i < |a + c| ==> (a + c)[i] == (a + b)[i];
      assert job == (a + b)[|a + b| - 1];
      JobsSnoc(s, Start(s), a + c, job);
      TaggedAppend(ts, JobsTagged(s, Start(s), a + c),
                   Tag(job.ci, JobTokens(s, AfterJobs(s, Start(s), a + c), job)));
      GoodPrefix(s, gather, ts, a, c);
    }
  }

  /** The segments so far can be sent, the last of them without its end. */
  ghost predicate Going(s: Scan, gather: bool, ts: seq<CompTables>, segs: seq<seq<Job>>)
    requires ValidScan(s) && AllValidJobs(s, segs) && segs != []
  {
    && (forall i :: 0 <= i < |segs| - 1 ==>
          AllInRange(s, Start(s), segs[i]) && (gather || HaveAll(ts, SegmentTagged(s, Start(s), segs[i]))))
    && Good(s, gather, ts, segs[|segs| - 1])
  }

  lemma JcoefZigzag(order: seq<nat>, block: Zigzag)
    requires IsOrder(order) && IsJcoef(block)
    ensures IsJcoef(InZigzag(order, block))
  {
    InZigzagJcoef(order, block);
  }

  lemma McuValid(s: Scan, order: seq<nat>, membership: seq<nat>, blocks: seq<Zigzag>, current: seq<Job>, e: State,
                 sent: seq<Tagged>)
    requires ValidScan(s) && IsOrder(order) && |membership| == |blocks| && Follows(s, current, e, sent)
    requires forall i :: 0 <= i < |membership| ==> membership[i] < s.comps
    requires forall i :: 0 <= i < |blocks| ==> IsJcoef(blocks[i])
    ensures ValidJobs(s, current + McuJobs(order, membership, blocks)) && ValidJobs(s, current)
  {
    hide JobsTagged, AllInRange, AfterJobs, IsJcoef, InZigzag, IsOrder;
    forall i | 0 <= i < |blocks|
      ensures IsJcoef(InZigzag(order, blocks[i]))
    {
      JcoefZigzag(order, blocks[i]);
    }
  }

  /** In AC scans the predictions never change. */
  lemma StartAgain(s: Scan, current: seq<Job>, e: State, sent: seq<Tagged>)
    requires ValidScan(s) && Follows(s, current, e, sent)
    ensures s.ss != 0 ==> e.last == Start(s).last
  {
    hide JobsTagged, AllInRange, AfterJobs;
    if IsAc(s.mode) {
      AcKeepsLast(s, Start(s), current);
    }
  }

  lemma NextOutput(prior: seq<byte>, before: seq<byte>, code: seq<byte>, n: nat)
    requires prior <= before && n < 8
    ensures var after := before + (Stuff(code) + [0xFF, 0xD0 + n]);
      prior <= after && after[|prior|..] == before[|prior|..] + Finished(code, n)
  {
    hide Stuff;
  }

  lemma FollowsMeans(s: Scan, current: seq<Job>, e: State, sent: seq<Tagged>)
    requires ValidScan(s) && Follows(s, current, e, sent)
    ensures ValidJobs(s, current) && SegmentTagged(s, Start(s), current) == sent + Flush(e)
  {
    hide JobsTagged, AllInRange, AfterJobs, Flush;
  }

  lemma FlushIs(e: State)
    ensures Flush(e) == Tag(0, Eob(e.pending.run, e.pending.bits))
  {
  }

  lemma ScanMeans(s: Scan)
    requires ValidScan(s)
    ensures s.se < 64 && (IsAc(s.mode) ==> 0 < s.ss <= s.se && s.comps == 1)
    ensures IsAc(s.mode) <==> s.mode == AcFirst || s.mode == AcRefine
  {
  }

  lemma ExtendsMeans(gather: bool, was: Mark, now: Mark, ci: nat, ks: seq<Token>)
    requires Extends(gather, was, now, ci, ks)
    ensures now.sent == was.sent + Tag(ci, ks) && now.total == was.total + Tag(ci, ks)
    ensures !gather ==> now.before == was.before
  {
  }
}
