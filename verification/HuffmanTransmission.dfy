/** A scan from the Huffman encoder object to the decoder object, in any mode, with input
    that may arrive in pieces: every MCU is decoded, and none is left blank. */
module HuffmanTransmission {
  import opened Bytes
  import opened Coefficients
  import opened RestartGroups
  import opened ScanArrays
  import opened HuffmanCode
  import opened HuffmanReader
  import opened HuffmanMcuDecoding
  import opened HuffmanScan
  import opened HuffmanRoundTrip
  import opened HuffmanScanEncoding
  import opened HuffmanGather
  import D = HuffmanScanDecoding

  ghost function SlotsOf(membership: seq<nat>, held: seq<seq<Zigzag>>): (r: seq<seq<Slot>>)
    requires forall i :: 0 <= i < |held| ==> |held[i]| == |membership|
    ensures |r| == |held| && forall i :: 0 <= i < |r| ==> r[i] == D.McuSlots(membership, held[i])
  {
    if held == [] then [] else [D.McuSlots(membership, held[0])] + SlotsOf(membership, held[1..])
  }

  ghost function JobsOf(order: seq<nat>, membership: seq<nat>, mcus: seq<seq<Zigzag>>): (r: seq<seq<Job>>)
    requires IsOrder(order) && forall i :: 0 <= i < |mcus| ==> |mcus[i]| == |membership|
    ensures |r| == |mcus| && forall i :: 0 <= i < |r| ==> r[i] == McuJobs(order, membership, mcus[i])
  {
    if mcus == [] then []
    else JobsOf(order, membership, mcus[..|mcus| - 1]) + [McuJobs(order, membership, mcus[|mcus| - 1])]
  }

  /** The blocks of all MCUs fit into 16 bits. */
  ghost predicate Fine(held: seq<seq<Zigzag>>)
  {
    forall i :: 0 <= i < |held| ==> D.AllJcoef(held[i])
  }

  /** The scan of the MCUs that start from `held` is all there. */
  ghost predicate Whole(sd: D.ScanDecoder, held: seq<seq<Zigzag>>)
  {
    && (forall i :: 0 <= i < |held| ==> |held[i]| == |sd.membership|)
    && ValidScan(sd.scan) && Readable(sd.scan, sd.tables)
    && D.AllValid(sd.scan, Segments(SlotsOf(sd.membership, held), sd.restartInterval))
    && Ample(sd.scan, sd.tables, Segments(SlotsOf(sd.membership, held), sd.restartInterval), 0, sd.input)
  }

  /** MCU `i` is the next. */
  lemma NextMcu(sd: D.ScanDecoder, held: seq<seq<Zigzag>>, i: nat)
    requires Whole(sd, held) && i < |held| && sd.mcus == SlotsOf(sd.membership, held)[..i]
    ensures |held[i]| == |sd.membership|
    ensures sd.Completes(D.McuSlots(sd.membership, held[i]), SlotsOf(sd.membership, held)[i + 1..])
  {
    hide Ample, Segments, D.AllValid, D.McuSlots, SlotsOf, Readable;
    SplitAt(SlotsOf(sd.membership, held), i);
  }

  lemma WholeSizes(sd: D.ScanDecoder, held: seq<seq<Zigzag>>)
    requires Whole(sd, held)
    ensures forall i :: 0 <= i < |held| ==> |held[i]| == |sd.membership|
    ensures ValidScan(sd.scan) && Readable(sd.scan, sd.tables)
    ensures D.AllValid(sd.scan, Segments(SlotsOf(sd.membership, held), sd.restartInterval))
    ensures Ample(sd.scan, sd.tables, Segments(SlotsOf(sd.membership, held), sd.restartInterval), 0, sd.input)
  {
    hide Ample, Segments, D.AllValid, D.McuSlots, SlotsOf, Readable;
  }

  lemma Waits(r: BitReader)
    requires r.Starved() && r.ending.At?
    ensures r.supplied < |r.src|
  {
  }

  /** One MCU, tried again whenever more input has arrived: `chunks(t)` more bytes, or as
      many as there are. */
  method DecodeOnce(sd: D.ScanDecoder, data: seq<array<int>>, chunks: nat -> nat, ghost bases: seq<Zigzag>,
                    ghost later: seq<seq<Slot>>)
    requires sd.Valid() && Blocks(data) && |data| == |bases| == |sd.membership| && IsOrder(sd.order)
    requires AllHeld(sd.order, data) == bases && D.AllJcoef(bases)
    requires sd.Completes(D.McuSlots(sd.membership, bases), later)
    modifies sd, sd.r, data
    ensures sd.Valid() && Grouped(sd.mcus, sd.segs, sd.current, sd.restartInterval, sd.restartsToGo)
    ensures sd.mcus == old(sd.mcus) + [D.McuSlots(sd.membership, bases)]
    ensures Concat(sd.done) + sd.blocks == old(Concat(sd.done) + sd.blocks) + AllHeld(sd.order, data)
  {
    hide *;
    sd.Parts();
    sd.CodedMeans();
    sd.SlotsValid(bases);
    sd.UntouchedWillDo(data);
    var t: nat := 0;
    ghost var mcus, blocks := sd.mcus, Concat(sd.done) + sd.blocks;
    while true
      invariant sd.Valid() && sd.Coded() && sd.MayHold(data, bases) && D.AllJcoef(AllHeld(sd.order, data))
      invariant sd.mcus == mcus && Concat(sd.done) + sd.blocks == blocks
      invariant sd.r.src == old(sd.r.src) && sd.r.supplied <= |sd.r.src|
      invariant sd.Completes(D.McuSlots(sd.membership, bases), later)
      decreases |sd.r.src| - sd.r.supplied
    {
      var res := sd.DecodeMcu(data, bases, later);
      if res.Decoded? {
        return;
      }
      sd.MarkerThere(D.McuSlots(sd.membership, bases), later);
      Waits(sd.r);
      var more := if chunks(t) < |sd.r.src| - sd.r.supplied then chunks(t) + 1 else |sd.r.src| - sd.r.supplied;
      sd.Supply(more, data, bases);
      t := t + 1;
    }
  }

  /** One MCU of a scan: the arrays of the others keep what they hold. */
  method DecodeNext(sd: D.ScanDecoder, data: seq<seq<array<int>>>, i: nat, chunks: nat -> nat,
                    ghost all: set<array<int>>,
                    ghost bases: seq<Zigzag>, ghost later: seq<seq<Slot>>)
    requires sd.Valid() && i < |data| && Apart(data, all) && |data[i]| == |bases| == |sd.membership|
             && IsOrder(sd.order)
    requires AllHeld(sd.order, data[i]) == bases && D.AllJcoef(bases)
    requires sd.Completes(D.McuSlots(sd.membership, bases), later)
    modifies sd, sd.r, all
    ensures sd.Valid() && Grouped(sd.mcus, sd.segs, sd.current, sd.restartInterval, sd.restartsToGo)
    ensures sd.mcus == old(sd.mcus) + [D.McuSlots(sd.membership, bases)]
    ensures Concat(sd.done) + sd.blocks == old(Concat(sd.done) + sd.blocks) + AllHeld(sd.order, data[i])
    ensures forall k :: 0 <= k < |data| && k != i ==> AllHeld(sd.order, data[k]) == old(AllHeld(sd.order, data[k]))
  {
    hide *;
    ApartMeans(data, all);
    DecodeOnce(sd, data[i], chunks, bases, later);
    forall k | 0 <= k < |data| && k != i
      ensures AllHeld(sd.order, data[k]) == old(AllHeld(sd.order, data[k]))
    {
      BlocksApart(data[k]);
      forall b | 0 <= b < |data[k]|
        ensures Held(sd.order, data[k][b]) == old(Held(sd.order, data[k][b]))
      {
        assert data[k][b] in data[k] && data[k][b] !in data[i];
      }
    }
  }

  /** All MCUs of a scan through the decoder object. */
  method DecodeScan(sd: D.ScanDecoder, data: seq<seq<array<int>>>, chunks: nat -> nat, ghost all: set<array<int>>,
                    ghost held: seq<seq<Zigzag>>)
    returns (ghost outs: seq<seq<Zigzag>>)
    requires sd.Valid() && sd.mcus == [] && sd.done == [] && sd.blocks == [] && held != []
    requires Whole(sd, held) && Fine(held) && IsOrder(sd.order) && Apart(data, all)
    requires Hold(sd.order, data, all, held)
    modifies sd, sd.r, all
    ensures Hold(sd.order, data, all, outs) && sd.Valid() && sd.mcus == SlotsOf(sd.membership, held)
    ensures Grouped(sd.mcus, sd.segs, sd.current, sd.restartInterval, sd.restartsToGo)
    ensures Concat(sd.done + [sd.blocks]) == Concat(outs)
  {
    hide *;
    WholeSizes(sd, held);
    ApartMeans(data, all);
    HoldSizes(sd.order, data, all, held);
    HoldMeans(sd.order, data, all, held);
    ghost var mcus := SlotsOf(sd.membership, held);
    outs := [];
    ConcatNone<Zigzag>();
    for i := 0 to |data|
      invariant sd.Valid() && sd.mcus == mcus[..i] && |outs| == i
      invariant i > 0 ==> Grouped(sd.mcus, sd.segs, sd.current, sd.restartInterval, sd.restartsToGo)
      invariant Concat(sd.done) + sd.blocks == Concat(outs)
      invariant forall k :: 0 <= k < i ==> AllHeld(sd.order, data[k]) == outs[k]
      invariant forall k :: i <= k < |data| ==> AllHeld(sd.order, data[k]) == held[k]
    {
      NextMcu(sd, held, i);
      FineAt(held, i);
      DecodeNext(sd, data, i, chunks, all, held[i], mcus[i + 1..]);
      SplitAt(mcus, i);
      ConcatSnoc(outs, AllHeld(sd.order, data[i]));
      outs := outs + [AllHeld(sd.order, data[i])];
    }
    assert mcus[..|data|] == mcus;
    HoldMeans(sd.order, data, all, outs);
    ConcatSnoc(sd.done, sd.blocks);
  }

  lemma FineAt(held: seq<seq<Zigzag>>, i: nat)
    requires Fine(held) && i < |held|
    ensures D.AllJcoef(held[i])
  {
  }

  // ------------------------------------------------------------------ encoder

  lemma {:induction false} ConcatFit(s: Scan, jobs: seq<seq<Job>>, slots: seq<seq<Slot>>)
    requires ScanFits(s, jobs, slots)
    ensures Fits(s, Concat(jobs), Concat(slots))
    decreases |jobs|
  {
    hide Behind, IsJcoef;
    if jobs != [] {
      assert Fits(s, jobs[0], slots[0]);
      ConcatFit(s, jobs[1..], slots[1..]);
    }
  }

  /** Segments fit when MCUs do. */
  lemma {:induction false} SegmentsFit(s: Scan, jobs: seq<seq<Job>>, slots: seq<seq<Slot>>, interval: nat)
    requires ScanFits(s, jobs, slots)
    ensures ScanFits(s, Segments(jobs, interval), Segments(slots, interval))
    decreases |jobs|
  {
    hide Fits, Concat;
    if interval == 0 || |jobs| <= interval {
      ConcatFit(s, jobs, slots);
    } else {
      ConcatFit(s, jobs[..interval], slots[..interval]);
      SegmentsFit(s, jobs[interval..], slots[interval..], interval);
    }
  }

  lemma FitSizes(s: Scan, jobs: seq<seq<Job>>, slots: seq<seq<Slot>>)
    requires ScanFits(s, jobs, slots)
    ensures |jobs| == |slots| && forall i :: 0 <= i < |jobs| ==> |jobs[i]| == |slots[i]|
    ensures AllValidJobs(s, jobs) && D.AllValid(s, slots)
  {
    hide Behind, IsJcoef;
    forall i | 0 <= i < |jobs|
      ensures |jobs[i]| == |slots[i]| && ValidJobs(s, jobs[i]) && ValidSlots(s, slots[i])
    {
      FitsValid(s, jobs[i], slots[i]);
    }
  }

  lemma {:induction false} TargetsAppend(s: Scan, a: seq<Job>, x: seq<Slot>, b: seq<Job>, y: seq<Slot>)
    requires |a| == |x| && |b| == |y|
    ensures Targets(s, a + b, x + y) == Targets(s, a, x) + Targets(s, b, y)
  {
    hide Targets, Target;
  }

  lemma {:induction false} TargetsConcat(s: Scan, jobs: seq<seq<Job>>, slots: seq<seq<Slot>>)
    requires |jobs| == |slots| && forall i :: 0 <= i < |jobs| ==> |jobs[i]| == |slots[i]|
    ensures |Concat(jobs)| == |Concat(slots)|
    ensures Targets(s, Concat(jobs), Concat(slots)) == Concat(ScanTargets(s, jobs, slots))
    decreases |jobs|
  {
    hide Targets;
    if jobs != [] {
      TargetsConcat(s, jobs[1..], slots[1..]);
      TargetsAppend(s, jobs[0], slots[0], Concat(jobs[1..]), Concat(slots[1..]));
    }
  }

  /** What the segments should give is what the MCUs should give. */
  lemma SegmentTargets(s: Scan, jobs: seq<seq<Job>>, slots: seq<seq<Slot>>, interval: nat)
    requires ScanFits(s, jobs, slots)
    ensures |jobs| == |slots| && forall i :: 0 <= i < |jobs| ==> |jobs[i]| == |slots[i]|
    ensures var a, b := Segments(jobs, interval), Segments(slots, interval);
      && ScanFits(s, a, b) && |a| == |b| && (forall i :: 0 <= i < |a| ==> |a[i]| == |b[i]|)
      && AllValidJobs(s, a) && D.AllValid(s, b)
      && Concat(ScanTargets(s, a, b)) == Concat(ScanTargets(s, jobs, slots))
  {
    hide *;
    SegmentsFit(s, jobs, slots, interval);
    FitSizes(s, jobs, slots);
    FitSizes(s, Segments(jobs, interval), Segments(slots, interval));
    TargetsConcat(s, Segments(jobs, interval), Segments(slots, interval));
    TargetsConcat(s, jobs, slots);
    ConcatSegments(jobs, interval);
    ConcatSegments(slots, interval);
  }

  /** Each MCU can be decoded into what its arrays hold. */
  ghost predicate Matches(s: Scan, order: seq<nat>, membership: seq<nat>, mcus: seq<seq<Zigzag>>,
                          held: seq<seq<Zigzag>>)
  {
    && IsOrder(order) && |held| == |mcus| && mcus != [] && Sendable(membership, mcus) && Fine(held)
    && (forall i :: 0 <= i < |held| ==> |held[i]| == |membership|)
    && ScanFits(s, JobsOf(order, membership, mcus), SlotsOf(membership, held))
  }

  lemma MatchesMeans(s: Scan, order: seq<nat>, membership: seq<nat>, mcus: seq<seq<Zigzag>>, held: seq<seq<Zigzag>>)
    requires Matches(s, order, membership, mcus, held)
    ensures IsOrder(order) && |held| == |mcus| && held != [] && Sendable(membership, mcus) && Fine(held)
    ensures forall i :: 0 <= i < |mcus| ==> |mcus[i]| == |membership|
    ensures forall i :: 0 <= i < |held| ==> |held[i]| == |membership|
    ensures ScanFits(s, JobsOf(order, membership, mcus), SlotsOf(membership, held))
  {
    hide JobsOf, SlotsOf, IsOrder, Fine, ScanFits, IsJcoef;
  }

  /** All MCUs of a scan through the encoder object, in a pass of either kind. */
  method EncodeMcus(se: ScanEncoder, mcus: seq<seq<Zigzag>>, ghost held: seq<seq<Zigzag>>) returns (ok: bool)
    requires se.Valid() && se.mcus == []
    requires Matches(se.scan, se.order, se.membership, mcus, held)
    modifies se, se.ac, se.ac.bitBuffer, se.sink, se.sink.w, se.sink.dcCounts, se.sink.acCounts
    ensures ValidScan(se.scan) && IsOrder(se.order) && forall i :: 0 <= i < |mcus| ==> |mcus[i]| == |se.membership|
    ensures ok ==> se.Valid() && se.mcus == JobsOf(se.order, se.membership, mcus)
    ensures var segs := Segments(JobsOf(se.order, se.membership, mcus), se.restartInterval);
      && AllValidJobs(se.scan, segs) && (!ok ==> !AllTaken(se.scan, se.sink.gather, se.sink.tables, segs))
  {
    hide *;
    MatchesMeans(se.scan, se.order, se.membership, mcus, held);
    SendableMeans(se.membership, mcus);
    ghost var jobs := JobsOf(se.order, se.membership, mcus);
    Scanned(se);
    SegmentTargets(se.scan, jobs, SlotsOf(se.membership, held), se.restartInterval);
    for i := 0 to |mcus|
      invariant se.Valid() && se.mcus == jobs[..i]
    {
      ok := se.EncodeMcu(mcus[i]);
      SplitAt(jobs, i);
      if !ok {
        if AllTaken(se.scan, se.sink.gather, se.sink.tables, Segments(jobs, se.restartInterval)) {
          NeverRefused(se.scan, se.sink.gather, se.sink.tables, jobs, i + 1, se.restartInterval);
        }
        return;
      }
    }
    ok := true;
    assert jobs[..|mcus|] == jobs;
  }

  /** A whole output pass: refused exactly for values out of range or a token without a code. */
  method EncodeScan(se: ScanEncoder, mcus: seq<seq<Zigzag>>, ghost held: seq<seq<Zigzag>>) returns (ok: bool)
    requires se.Valid() && se.mcus == [] && !se.sink.gather
    requires Matches(se.scan, se.order, se.membership, mcus, held)
    modifies se, se.ac, se.ac.bitBuffer, se.sink, se.sink.w, se.sink.dcCounts, se.sink.acCounts
    ensures ValidScan(se.scan) && IsOrder(se.order) && forall i :: 0 <= i < |mcus| ==> |mcus[i]| == |se.membership|
    ensures var segs := Segments(JobsOf(se.order, se.membership, mcus), se.restartInterval);
      && AllValidJobs(se.scan, segs) && (ok <==> AllAccepted(se.scan, se.sink.tables, segs))
      && (ok ==> ScanCodes(se.scan, se.sink.tables, segs, se.codes)
                 && se.sink.w.out == se.prior + ScanBytes(se.codes, 0, []))
  {
    hide *;
    ok := EncodeMcus(se, mcus, held);
    ghost var segs := Segments(JobsOf(se.order, se.membership, mcus), se.restartInterval);
    TakenIs(se.scan, se.sink.tables, segs);
    if ok {
      ok := se.FinishPass();
      if ok {
        CodesAccepted(se.scan, se.sink.tables, segs, se.codes);
      }
    }
  }

  lemma Scanned(se: ScanEncoder)
    requires se.Valid()
    ensures ValidScan(se.scan) && IsOrder(se.order)
    ensures forall i :: 0 <= i < |se.membership| ==> se.membership[i] < se.scan.comps
    ensures IsAc(se.scan.mode) ==> |se.membership| == 1
  {
    hide ScanEncoder.InSegment, ValidScan, WrittenSoFar, Grouped, IsOrder;
  }

  lemma CodesAccepted(s: Scan, ts: seq<CompTables>, segs: seq<seq<Job>>, codes: seq<seq<byte>>)
    requires ValidScan(s) && AllValidJobs(s, segs) && ScanCodes(s, ts, segs, codes)
    ensures AllAccepted(s, ts, segs) && |codes| == |segs|
  {
    hide Accepted;
  }

  /** What the decoder finds when it reads the encoder's segments. */
  lemma Destined(sd: D.ScanDecoder, held: seq<seq<Zigzag>>, segs: seq<seq<Job>>, codes: seq<seq<byte>>, m: byte,
                 tail: seq<byte>)
    requires forall i :: 0 <= i < |held| ==> |held[i]| == |sd.membership|
    requires ValidScan(sd.scan) && Encodable(sd.scan, sd.tables) && AllValidJobs(sd.scan, segs) && segs != []
    requires 0 < m < 255
    requires ScanFits(sd.scan, segs, Segments(SlotsOf(sd.membership, held), sd.restartInterval))
    requires ScanCodes(sd.scan, sd.tables, segs, codes) && sd.input == ScanBytes(codes, 0, [255, m] + tail)
    ensures Whole(sd, held)
    ensures var slots := Segments(SlotsOf(sd.membership, held), sd.restartInterval);
      && |segs| == |slots| && (forall i :: 0 <= i < |segs| ==> |segs[i]| == |slots[i]|)
      && ParseScan(sd.scan, sd.tables, slots, 0, sd.input) == Complete(ScanTargets(sd.scan, segs, slots), At(m, tail))
  {
    hide Ample, ParseScan, ScanFits, ScanCodes, Encodable, Readable, Segments, SlotsOf, ScanBytes, ScanTargets;
    EncodableReadable(sd.scan, sd.tables);
    FitSizes(sd.scan, segs, Segments(SlotsOf(sd.membership, held), sd.restartInterval));
    ScanParsed(sd.scan, sd.tables, segs, Segments(SlotsOf(sd.membership, held), sd.restartInterval), codes, 0, m, tail);
  }

  lemma TargetSizes(s: Scan, order: seq<nat>, membership: seq<nat>, mcus: seq<seq<Zigzag>>, held: seq<seq<Zigzag>>)
    requires Matches(s, order, membership, mcus, held)
    ensures var jobs, slots := JobsOf(order, membership, mcus), SlotsOf(membership, held);
      && |jobs| == |slots| && (forall i :: 0 <= i < |jobs| ==> |jobs[i]| == |slots[i]|)
      && |ScanTargets(s, jobs, slots)| == |mcus|
      && forall i :: 0 <= i < |mcus| ==> |ScanTargets(s, jobs, slots)[i]| == |membership|
  {
    hide Fits;
  }

  lemma ReadiedMeans(s: Scan, ts: seq<CompTables>)
    requires Encodable(s, ts) && Readied(s, ts)
    ensures |ts| == s.comps && D.AllAcceptable(s, ts)
    ensures forall i :: 0 <= i < |ts| ==> Shaped(ts[i]) && Bytewise(ts[i].dcTable) && Bytewise(ts[i].acTable)
  {
    hide Roomy, Upto, Bytewise;
    assert forall i :: 0 <= i < |ts| ==> ReadiedAt(s, ts[i]);
  }

  /** A scan from object to object, in any mode and with input that arrives in pieces of any
      size: unless the encoder refuses a value or a token without a code, every MCU is
      decoded, none is left blank, and each block is the sent one as far as the scan covers
      it. */
  method Transmit(se: ScanEncoder, mcus: seq<seq<Zigzag>>, start: nat, m: byte, tail: seq<byte>,
                  chunks: nat -> nat, data: seq<seq<array<int>>>, ghost all: set<array<int>>,
                  ghost held: seq<seq<Zigzag>>)
    returns (ok: bool, ghost outs: seq<seq<Zigzag>>)
    requires se.Valid() && se.mcus == [] && !se.sink.gather && start == |se.prior| && 0 < m < 255
    requires Encodable(se.scan, se.sink.tables) && Readied(se.scan, se.sink.tables)
    requires Matches(se.scan, se.order, se.membership, mcus, held)
    requires Apart(data, all) && Hold(se.order, data, all, held)
    modifies se, se.ac, se.ac.bitBuffer, se.sink, se.sink.w, se.sink.dcCounts, se.sink.acCounts, all
    ensures ValidScan(se.scan) && IsOrder(se.order)
    ensures forall i :: 0 <= i < |mcus| ==> |mcus[i]| == |se.membership|
    ensures forall i :: 0 <= i < |held| ==> |held[i]| == |se.membership|
    ensures var jobs, slots := JobsOf(se.order, se.membership, mcus), SlotsOf(se.membership, held);
      && |jobs| == |slots| && (forall i :: 0 <= i < |jobs| ==> |jobs[i]| == |slots[i]|)
      && AllValidJobs(se.scan, Segments(jobs, se.restartInterval))
      && (ok <==> AllAccepted(se.scan, se.sink.tables, Segments(jobs, se.restartInterval)))
      && (ok ==> Hold(se.order, data, all, outs) && outs == ScanTargets(se.scan, jobs, slots))
  {
    hide *;
    MatchesMeans(se.scan, se.order, se.membership, mcus, held);
    TargetSizes(se.scan, se.order, se.membership, mcus, held);
    Scanned(se);
    HoldSizes(se.order, data, all, held);
    EncodableReadable(se.scan, se.sink.tables);
    ghost var jobs, slots := JobsOf(se.order, se.membership, mcus), SlotsOf(se.membership, held);
    SegmentTargets(se.scan, jobs, slots, se.restartInterval);
    outs := [];
    ok := EncodeScan(se, mcus, held);
    if !ok {
      return;
    }
    ghost var segs := Segments(jobs, se.restartInterval);
    CodesAccepted(se.scan, se.sink.tables, segs, se.codes);
    ScanBytesRest(se.codes, 0, [255, m] + tail);
    assert se.sink.w.out[start..] == ScanBytes(se.codes, 0, []);
    var r := new BitReader(se.sink.w.out[start..] + ([255, m] + tail));
    assert r.src[r.pos..] == r.src;
    ReadiedMeans(se.scan, se.sink.tables);
    var derived, ds := D.DeriveTables(se.scan, se.sink.tables);
    var sd := new D.ScanDecoder(r, se.scan, se.sink.tables, ds, se.order, se.membership, se.restartInterval);
    Destined(sd, held, segs, se.codes, m, tail);
    outs := DecodeScan(sd, data, chunks, all, held);
    WholeSizes(sd, held);
    sd.MarkerAtEnd();
    sd.ScanResult();
    HoldSizes(se.order, data, all, outs);
    ConcatSame(outs, ScanTargets(se.scan, jobs, slots));
  }
}
