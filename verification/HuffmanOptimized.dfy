/** A scan with optimized tables: the statistics pass, the tables, the output pass and the
    decoder, over the same MCUs. */
module HuffmanOptimized {
  import opened Bytes
  import opened Coefficients
  import opened RestartGroups
  import opened ScanArrays
  import opened HuffmanCode
  import opened HuffmanMcuDecoding
  import opened HuffmanWriter
  import opened HuffmanScan
  import opened HuffmanRoundTrip
  import opened HuffmanSink
  import opened ProgressiveEncoding
  import opened ProgressiveTokens
  import opened HuffmanScanEncoding
  import opened HuffmanGather
  import opened HuffmanGenerating
  import opened HuffmanLengths
  import opened HuffmanTransmission

  /** The segments of the scan. */
  ghost function AllJobs(ge: ScanEncoder, mcus: seq<seq<Zigzag>>): seq<seq<Job>>
    requires IsOrder(ge.order) && forall i :: 0 <= i < |mcus| ==> |mcus[i]| == |ge.membership|
  {
    Segments(JobsOf(ge.order, ge.membership, mcus), ge.restartInterval)
  }

  lemma GatheringParts(ge: ScanEncoder)
    requires ge.Valid()
    ensures ge.sink.Parameters() && |ge.sink.dcTbl| == ge.scan.comps && 0 < ge.scan.comps
  {
    hide WrittenSoFar, Follows, SymbolSink.Valid;
    SinkParts(ge);
  }

  /** The sink of the output pass has the same table numbers and counters. */
  method OutputSink(was: SymbolSink, w: BitWriter, ts: seq<CompTables>) returns (sink: SymbolSink)
    requires was.Parameters() && w.Valid() && w.bits == [] && |ts| == |was.dcTbl|
    requires forall ci :: 0 <= ci < |ts| ==> Usable(ts[ci])
    ensures fresh(sink) && sink.Valid() && !sink.gather && sink.tables == ts && sink.sent == sink.total == []
    ensures sink.w == w && sink.dcTbl == was.dcTbl
    ensures sink.dcCounts == was.dcCounts && sink.acCounts == was.acCounts
  {
    sink := new SymbolSink(false, w, ts, was.dcTbl, was.acTbl, was.dcCounts, was.acCounts);
  }

  /** Optimized coding of a scan, from the statistics pass to the decoder: if all values are
      in range and no code of an unlimited Huffman code is longer than 32 bits (which takes
      9227464 symbols), the scan is written with the generated tables and every block
      arrives. */
  method TransmitOptimized(ge: ScanEncoder, prior: seq<byte>, dcOld: seq<Table>, acOld: seq<Table>,
                           mcus: seq<seq<Zigzag>>, m: byte, tail: seq<byte>, chunks: nat -> nat,
                           data: seq<seq<array<int>>>, ghost all: set<array<int>>, ghost held: seq<seq<Zigzag>>)
    returns (inRange: bool, ok: bool, ts: seq<CompTables>, ghost outs: seq<seq<Zigzag>>,
             ghost dc: seq<seq<nat>>, ghost ac: seq<seq<nat>>)
    requires ge.Valid() && ge.mcus == [] && ge.sink.gather && |dcOld| == |acOld| == NUM_HUFF_TBLS && 0 < m < 255
    requires Matches(ge.scan, ge.order, ge.membership, mcus, held)
    requires IsOrder(ge.order) && forall i :: 0 <= i < |mcus| ==> |mcus[i]| == |ge.membership|
    requires Optimizable(ge.scan, AllJobs(ge, mcus), ge.sink.dcTbl, ge.sink.acTbl)
    requires ScanArrays.Apart(data, all) && Hold(ge.order, data, all, held)
    modifies ge, ge.ac, ge.ac.bitBuffer, ge.sink, ge.sink.w, ge.sink.dcCounts, ge.sink.acCounts, all
    ensures ValidScan(ge.scan) && AllValidJobs(ge.scan, AllJobs(ge, mcus))
    ensures forall i :: 0 <= i < |held| ==> |held[i]| == |ge.membership|
    ensures inRange <==> AllTaken(ge.scan, true, [], AllJobs(ge, mcus))
    ensures inRange ==>
              && CountsOf(ge.scan, AllJobs(ge, mcus), ge.sink.dcTbl, ge.sink.acTbl, dc, ac)
              && CountsReady(ge.scan, ge.sink.dcTbl, ge.sink.acTbl, dc, ac)
              && (ok <==> AllCodesFit(ge.scan, ge.sink.dcTbl, ge.sink.acTbl, dc, ac, ge.scan.comps))
              && (|AllTagged(ge.scan, AllJobs(ge, mcus))| < OVERFLOW_TOTAL ==> ok)
    ensures inRange && ok ==>
              var jobs, slots := JobsOf(ge.order, ge.membership, mcus), SlotsOf(ge.membership, held);
              && |jobs| == |slots| && (forall i :: 0 <= i < |jobs| ==> |jobs[i]| == |slots[i]|)
              && Hold(ge.order, data, all, outs) && outs == ScanTargets(ge.scan, jobs, slots)
  {
    hide *;
    MatchesMeans(ge.scan, ge.order, ge.membership, mcus, held);
    GatheringParts(ge);
    Scanned(ge);
    outs, dc, ac, ts, ok := [], [], [], [], false;
    ghost var segs := AllJobs(ge, mcus);
    AllJobsIs(ge, mcus);
    inRange := EncodeMcus(ge, mcus, held);
    TakenIs(ge.scan, ge.sink.tables, segs);
    TakenIs(ge.scan, [], segs);
    if !inRange {
      return;
    }
    ok, ts, dc, ac := FinishPassGather(ge, dcOld, acOld);
    if ok {
      var w := new BitWriter(prior);
      var sink := OutputSink(ge.sink, w, ts);
      var e := new AcEncoder(sink);
      EmptyPend(e);
      var se := new ScanEncoder(sink, e, ge.scan, ge.order, ge.membership, ge.restartInterval);
      var sent;
      sent, outs := HuffmanTransmission.Transmit(se, mcus, |prior|, m, tail, chunks, data, all, held);
    }
  }

  lemma AllJobsIs(ge: ScanEncoder, mcus: seq<seq<Zigzag>>)
    requires IsOrder(ge.order) && forall i :: 0 <= i < |mcus| ==> |mcus[i]| == |ge.membership|
    ensures AllJobs(ge, mcus) == Segments(JobsOf(ge.order, ge.membership, mcus), ge.restartInterval)
  {
  }

  lemma EmptyPend(e: AcEncoder)
    requires e.Own() && e.Pend() == NONE
    ensures e.eobrun == 0
  {
  }
}
