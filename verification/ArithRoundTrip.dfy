/** A scan through both objects of the arithmetic coder: the decoder, given what the encoder
    wrote, returns every MCU, exactly when it accepts all DC differences; and a difference it
    does not accept spoils no segment but its own. */
module ArithRoundTrip {
  import opened Bytes
  import opened Coefficients
  import opened IntervalCoder
  import opened ArithScan
  import opened ArithSegment
  import opened ArithAreas
  import opened ArithDecoding
  import opened ArithMcuDecoding
  import opened ArithScanEncoding
  import opened ArithScanDecoding
  import opened RestartGroups
  import opened ScanArrays

  /** The first of the segments is read, up to the marker after it. */
  lemma FirstRead(codes: seq<seq<byte>>, n: nat, m: byte, tail: seq<byte>)
    requires codes != [] && 0 < m < 255
    ensures var input := ScanBytes(codes, n, [255, m] + tail);
      && Payload(input) == codes[0]
      && End(input) == if |codes| == 1 then At(m, tail)
                       else At(0xD0 + n % 8, ScanBytes(codes[1..], n + 1, [255, m] + tail))
  {
    hide Stuff, Payload, End;
    var code := codes[0];
    if |codes| == 1 {
      assert Stuff(code) + ([255, m] + tail) == Stuff(code) + [255, m] + tail;
      UnstuffStuff(code, m, tail);
    } else {
      UnstuffStuff(code, 0xD0 + n % 8, ScanBytes(codes[1..], n + 1, [255, m] + tail));
    }
  }

  /** Segments read so far leave the bytes of the others. */
  lemma {:induction false} ReachedBytes(s: Scan, slots: seq<seq<Slot>>, blocks: seq<seq<Zigzag>>, zeroed: Stats, n: nat,
                                        input: seq<byte>, stats: Stats, rest: seq<byte>, codes: seq<seq<byte>>,
                                        m: byte, tail: seq<byte>, clean: bool)
    requires ValidScan(s) && ValidStats(zeroed) && AllValidSlots(s, slots) && |slots| < |codes| && 0 < m < 255
    requires Reached(s, slots, blocks, zeroed, n, input, stats, rest, clean)
    requires input == ScanBytes(codes, n, [255, m] + tail)
    ensures rest == ScanBytes(codes[|slots|..], n + |slots|, [255, m] + tail)
    decreases |slots|
  {
    hide ParseJobs, ZeroAreas, ValidStats, ValidSlots, Areas, Payload, End, ScanBytes;
    if slots != [] {
      var seg := ParseJobs(s, StartPred(s), slots[0], Coder(START, zeroed), Payload(input));
      ZeroAreasValid(seg.next.stats, Areas(s));
      FirstRead(codes, n, m, tail);
      ReachedBytes(s, slots[1..], blocks[1..], ZeroAreas(seg.next.stats, Areas(s)), n + 1, End(input).rest, stats,
                   rest, codes[1..], m, tail, clean);
      assert codes[1..][|slots| - 1..] == codes[|slots|..];
    }
  }

  /** A segment is decoded to what was sent, exactly when all its differences are in range. */
  lemma SegmentDecoded(s: Scan, jobs: seq<Job>, slots: seq<Slot>, stats: Stats, code: seq<byte>)
    requires ValidScan(s) && ValidStats(stats) && ValidJobs(s, jobs) && AllFit(s, jobs, slots)
    requires IsCode(Run(Coder(START, stats), JobDecisions(s, StartPred(s), jobs)).iv, code)
    ensures ValidSlots(s, slots)
    ensures var seg := ParseJobs(s, StartPred(s), slots, Coder(START, stats), code);
      && (seg.Got? <==> JobsInRange(s, StartPred(s), jobs))
      && (seg.Got? ==> seg.value.blocks == Targets(s, jobs, slots))
  {
    hide Run, JobDecisions, ParseJobs, JobsInRange, IsCode, Contains, LegalRun, ValidStats, AllFit, ValidJobs,
      ValidSlots, Targets;
    FitsValid(s, jobs, slots);
    var k, ds := Coder(START, stats), JobDecisions(s, StartPred(s), jobs);
    CodeInside(Run(k, ds).iv, code);
    JobsParsed(s, StartPred(s), jobs, slots, k, code);
  }

  /** What should have come out did, if all differences of the segment are in range. */
  ghost predicate AsSent(s: Scan, jobs: seq<Job>, slots: seq<Slot>, out: seq<Zigzag>)
    requires ValidScan(s)
  {
    && ValidJobs(s, jobs) && AllFit(s, jobs, slots)
    && (JobsInRange(s, StartPred(s), jobs) ==> out == Targets(s, jobs, slots))
  }

  /** So it is with each of the segments `slots`. */
  ghost predicate Contained(s: Scan, segs: seq<seq<Job>>, slots: seq<seq<Slot>>, outs: seq<seq<Zigzag>>)
    requires ValidScan(s)
  {
    |outs| == |slots| <= |segs| && forall i :: 0 <= i < |slots| ==> AsSent(s, segs[i], slots[i], outs[i])
  }

  /** Whatever became of the others, a finished segment in range gave what was sent, and the
      next begins with fresh bins. */
  lemma {:induction false} ReachedContained(s: Scan, segs: seq<seq<Job>>, slots: seq<seq<Slot>>,
                                            blocks: seq<seq<Zigzag>>, zeroed: Stats, n: nat, input: seq<byte>,
                                            stats: Stats, rest: seq<byte>, codes: seq<seq<byte>>, m: byte,
                                            tail: seq<byte>, clean: bool)
    requires ValidScan(s) && ValidStats(zeroed) && Fresh(s, zeroed) && AllValidSlots(s, slots)
    requires AllValidJobs(s, segs) && |slots| < |segs| && 0 < m < 255
    requires forall i :: 0 <= i < |slots| ==> AllFit(s, segs[i], slots[i])
    requires Reached(s, slots, blocks, zeroed, n, input, stats, rest, clean)
    requires ScanCodes(s, segs, zeroed, codes) && input == ScanBytes(codes, n, [255, m] + tail)
    ensures stats == zeroed && Contained(s, segs, slots, blocks)
    decreases |slots|
  {
    hide Run, JobDecisions, ParseJobs, JobsInRange, IsCode, ZeroAreas, ValidStats, ValidSlots, ValidJobs, Areas,
      Payload, End, ScanBytes, AllFit, Targets, Fresh;
    if slots != [] {
      CodesAlone(s, segs, zeroed, codes, 0);
      FirstRead(codes, n, m, tail);
      SegmentDecoded(s, segs[0], slots[0], zeroed, codes[0]);
      EncoderRestarts(s, segs[0], zeroed);
      DecoderRestarts(s, slots[0], zeroed, codes[0]);
      CodesCount(s, segs, zeroed, codes);
      ReachedContained(s, segs[1..], slots[1..], blocks[1..], zeroed, n + 1, End(input).rest, stats, rest, codes[1..],
                       m, tail, clean);
    }
  }

  lemma {:induction false} CodesCount(s: Scan, segs: seq<seq<Job>>, stats: Stats, codes: seq<seq<byte>>)
    requires ValidScan(s) && ValidStats(stats) && AllValidJobs(s, segs)
    requires ScanCodes(s, segs, stats, codes)
    ensures |codes| == |segs|
    decreases |segs|
  {
    hide Run, JobDecisions, IsCode, ZeroAreas, ValidStats;
    if segs != [] {
      var end := Run(Coder(START, stats), JobDecisions(s, StartPred(s), segs[0]));
      ZeroAreasValid(end.stats, Areas(s));
      CodesCount(s, segs[1..], ZeroAreas(end.stats, Areas(s)), codes[1..]);
    }
  }

  ghost function SlotsOf(membership: seq<nat>, held: seq<seq<Zigzag>>): (r: seq<seq<Slot>>)
    requires forall i :: 0 <= i < |held| ==> |held[i]| == |membership|
    ensures |r| == |held| && forall i :: 0 <= i < |r| ==> r[i] == McuSlots(membership, held[i])
  {
    if held == [] then [] else [McuSlots(membership, held[0])] + SlotsOf(membership, held[1..])
  }

  /** The decoder was given what the encoder wrote for `segs`, and then a marker. */
  ghost predicate Given(sd: ScanDecoder, held: seq<seq<Zigzag>>, segs: seq<seq<Job>>, codes: seq<seq<byte>>,
                        m: byte, tail: seq<byte>)
    reads sd, sd.dec
  {
    && sd.Valid() && sd.mcus == [] && sd.done == [] && sd.blocks == [] && sd.clean && held != []
    && (forall i :: 0 <= i < |held| ==> |held[i]| == |sd.membership|)
    && (forall i :: 0 <= i < |segs| ==> ValidJobs(sd.scan, segs[i]))
    && AllValidSlots(sd.scan, Segments(SlotsOf(sd.membership, held), sd.restartInterval))
    && ScanFits(sd.scan, segs, Segments(SlotsOf(sd.membership, held), sd.restartInterval))
    && ScanCodes(sd.scan, segs, sd.zeroed, codes) && 0 < m < 255
    && sd.input == ScanBytes(codes, 0, [255, m] + tail)
  }

  /** The segments of the whole scan. */
  ghost function AllSegments(sd: ScanDecoder, held: seq<seq<Zigzag>>): seq<seq<Slot>>
    requires forall i :: 0 <= i < |held| ==> |held[i]| == |sd.membership|
  {
    Segments(SlotsOf(sd.membership, held), sd.restartInterval)
  }

  /** The blocks of each segment as they should come out. */
  ghost function Wanted(sd: ScanDecoder, held: seq<seq<Zigzag>>, segs: seq<seq<Job>>): seq<seq<Zigzag>>
    requires forall i :: 0 <= i < |held| ==> |held[i]| == |sd.membership|
    requires ScanFits(sd.scan, segs, AllSegments(sd, held))
  {
    ScanTargets(sd.scan, segs, AllSegments(sd, held))
  }

  /** Everything is decoded, or the decoder rejects a DC difference: exactly when one exceeds
      2^15 in magnitude. */
  lemma Destined(sd: ScanDecoder, held: seq<seq<Zigzag>>, segs: seq<seq<Job>>, codes: seq<seq<byte>>, m: byte,
                 tail: seq<byte>)
    requires Given(sd, held, segs, codes, m, tail)
    ensures ValidScan(sd.scan) && ValidStats(sd.zeroed) && AllSegments(sd, held) != []
    ensures ParseScan(sd.scan, AllSegments(sd, held), sd.zeroed, 0, sd.input)
         == if ScanInRange(sd.scan, segs) then ScanResult.Complete(Wanted(sd, held, segs), At(m, tail)) else BadScan
  {
    hide ParseScan, ScanCodes, Segments, ScanDecoder.InSegment, ScanDecoder.Closing, ScanInRange, ScanFits, ScanTargets,
      ValidJobs, ValidSlots;
    sd.Parts();
    sd.Given();
    FitSizes(sd.scan, segs, AllSegments(sd, held));
    ScanParsed(sd.scan, segs, AllSegments(sd, held), sd.zeroed, codes, 0, m, tail);
  }

  lemma FitSizes(s: Scan, segs: seq<seq<Job>>, slots: seq<seq<Slot>>)
    requires ScanFits(s, segs, slots)
    ensures |segs| == |slots|
  {
  }

  /** MCU `i` is the next, and the scan decodes with it. */
  lemma NextMcu(sd: ScanDecoder, held: seq<seq<Zigzag>>, segs: seq<seq<Job>>, codes: seq<seq<byte>>, m: byte,
                tail: seq<byte>, i: nat)
    requires forall k :: 0 <= k < |held| ==> |held[k]| == |sd.membership|
    requires i < |held| && sd.mcus == SlotsOf(sd.membership, held)[..i]
    requires ValidScan(sd.scan) && ValidStats(sd.zeroed) && AllValidSlots(sd.scan, AllSegments(sd, held))
    requires ParseScan(sd.scan, AllSegments(sd, held), sd.zeroed, 0, sd.input).Complete?
    ensures sd.Completes(McuSlots(sd.membership, held[i]), SlotsOf(sd.membership, held)[i + 1..])
  {
    hide ParseScan, Segments, AllValidSlots, ValidStats, ScanDecoder.Completes, McuSlots, SlotsOf;
    var mcus := SlotsOf(sd.membership, held);
    SplitAt(mcus, i);
    sd.CompletesIs(mcus[i], mcus[i + 1..], mcus);
  }

  /** The markers the next MCU needs are there, whatever became of the MCUs so far. */
  lemma MarkersNext(sd: ScanDecoder, held: seq<seq<Zigzag>>, codes: seq<seq<byte>>, m: byte, tail: seq<byte>, i: nat)
    requires sd.Valid() && (forall k :: 0 <= k < |held| ==> |held[k]| == |sd.membership|)
    requires i < |held| && sd.mcus == SlotsOf(sd.membership, held)[..i]
    requires |codes| == |AllSegments(sd, held)| && 0 < m < 255 && sd.input == ScanBytes(codes, 0, [255, m] + tail)
    ensures sd.MarkersThere()
  {
    hide Segments, ScanBytes, Payload, End, Reached, SlotsOf, Grouped, LastCount, ValidStats, AllValidSlots,
      ScanDecoder.Valid, ScanDecoder.Within, ScanDecoder.Closing, ScanDecoder.MarkersThere;
    sd.Parts();
    sd.LastSegment();
    MoreSegments(SlotsOf(sd.membership, held), i, sd.segs, sd.current, sd.restartInterval, sd.restartsToGo);
    ReachedBytes(sd.scan, sd.segs, sd.done, sd.zeroed, 0, sd.input, sd.dec.initial, sd.rest, codes, m, tail, sd.clean);
    MarkersAre(sd, codes[|sd.segs|..], |sd.segs|, m, tail);
  }

  lemma MarkersAre(sd: ScanDecoder, codes: seq<seq<byte>>, n: nat, m: byte, tail: seq<byte>)
    requires codes != [] && (sd.RestartDue() ==> |codes| > 1) && 0 < m < 255
    requires sd.dec.ending == End(sd.rest) && sd.rest == ScanBytes(codes, n, [255, m] + tail)
    requires sd.nextRestartNum == n % 8
    ensures sd.MarkersThere()
  {
    hide ScanBytes, Payload, End;
    FirstRead(codes, n, m, tail);
    if sd.RestartDue() {
      FirstRead(codes[1..], n + 1, m, tail);
    }
  }

  /** Another MCU belongs to the segment in progress, or to one more. */
  lemma MoreSegments<T>(all: seq<seq<T>>, i: nat, segs: seq<seq<T>>, current: seq<T>, interval: nat, togo: nat)
    requires i < |all| && Grouped(all[..i], segs, current, interval, togo)
    ensures |Segments(all, interval)| > if interval != 0 && togo == 0 then |segs| + 1 else |segs|
  {
    hide Segments, Prolongs, LastCount;
    SplitAt(all, i);
    GroupedNext(all[..i], segs, current, interval, togo, all[i]);
    SegmentsProlong(all[..i + 1], all[i + 1..], interval);
    ProlongsSize(Segments(all[..i + 1], interval), Segments(all, interval));
  }

  /** One MCU of a scan: the arrays of the others keep what they hold. */
  method DecodeNext(sd: ScanDecoder, data: seq<seq<array<int>>>, i: nat, ghost all: set<array<int>>,
                    ghost later: seq<seq<Slot>>)
    returns (good: bool)
    requires sd.Valid() && i < |data| && Apart(data, all) && |data[i]| == |sd.membership| && IsOrder(sd.order)
    requires sd.MarkersThere()
    modifies sd, sd.dec, all
    ensures old(sd.Completes(McuSlots(sd.membership, AllHeld(sd.order, data[i])), later)) ==> good
    ensures sd.Valid() && sd.mcus == old(sd.mcus) + [McuSlots(sd.membership, old(AllHeld(sd.order, data[i])))]
    ensures sd.done == old(sd.BlocksDone()) && sd.blocks == old(sd.BlocksOpen()) + AllHeld(sd.order, data[i])
    ensures sd.restartsToGo == old(sd.LeftToGo()) && sd.clean == (old(sd.clean) && good)
    ensures forall k :: 0 <= k < |data| && k != i ==> AllHeld(sd.order, data[k]) == old(AllHeld(sd.order, data[k]))
  {
    hide *;
    ApartMeans(data, all);
    ThereMeans(sd);
    var ok, r := sd.DecodeMcu(data[i], later);
    good := r.Value?;
    forall k | 0 <= k < |data| && k != i
      ensures AllHeld(sd.order, data[k]) == old(AllHeld(sd.order, data[k]))
    {
      BlocksApart(data[k]);
      forall b | 0 <= b < |data[k]|
        ensures Held(sd.order, data[k][b]) == old(Held(sd.order, data[k][b]))
      {
        assert data[k][b] in data[k] && data[k][b] !in data[i];
      }
    }
  }

  lemma ThereMeans(sd: ScanDecoder)
    requires sd.MarkersThere()
    ensures sd.RestartDue() ==> sd.dec.ending.At? && sd.dec.ending.code == 0xD0 + sd.nextRestartNum
    ensures sd.SegmentEnding() != Cut
  {
  }

  /** Where the blocks of the next MCU, whatever they are, belong among the segments. */
  lemma OutsNext(sd: ScanDecoder, outs: seq<seq<Zigzag>>)
    requires Grouped(outs, sd.done, sd.blocks, sd.restartInterval, sd.restartsToGo)
    ensures forall x :: Grouped(outs + [x], sd.BlocksDone(), sd.BlocksOpen() + x, sd.restartInterval, sd.LeftToGo())
  {
    hide Grouped;
    forall x
      ensures Grouped(outs + [x], sd.BlocksDone(), sd.BlocksOpen() + x, sd.restartInterval, sd.LeftToGo())
    {
      GroupedNext(outs, sd.done, sd.blocks, sd.restartInterval, sd.restartsToGo, x);
    }
  }

  lemma NoneOut(sd: ScanDecoder)
    requires sd.Valid() && sd.mcus == [] && sd.done == [] && sd.blocks == []
    ensures Grouped([], sd.done, sd.blocks, sd.restartInterval, sd.restartsToGo)
  {
    hide ScanDecoder.Within, ScanDecoder.Closing;
  }

  /** All MCUs of a scan through the decoder object: it takes every one and they hold what
      they should, if and only if all DC differences are in the decoder's range.  When the bins
      are as start_pass sets them, each segment whose differences are in range comes out as
      sent, whatever is in the others. */
  method DecodeScan(sd: ScanDecoder, data: seq<seq<array<int>>>, ghost all: set<array<int>>,
                    ghost held: seq<seq<Zigzag>>, ghost segs: seq<seq<Job>>, ghost codes: seq<seq<byte>>,
                    ghost m: byte, ghost tail: seq<byte>)
    returns (ok: bool, ghost outs: seq<seq<Zigzag>>)
    requires Given(sd, held, segs, codes, m, tail) && IsOrder(sd.order) && Apart(data, all) && |held| == |data|
    requires Hold(sd.order, data, all, held)
    modifies sd, sd.dec, all
    ensures ValidScan(sd.scan) && (ok <==> ScanInRange(sd.scan, segs))
    ensures Hold(sd.order, data, all, outs) && |outs| == |data|
    ensures ok ==> Concat(outs) == Concat(Wanted(sd, held, segs))
    ensures Fresh(sd.scan, sd.zeroed) ==>
              Contained(sd.scan, segs, AllSegments(sd, held), Segments(outs, sd.restartInterval))
  {
    hide *;
    GivenMeans(sd, held, segs, codes, m, tail);
    ApartMeans(data, all);
    HoldMeans(sd.order, data, all, held);
    Destined(sd, held, segs, codes, m, tail);
    ghost var mcus := SlotsOf(sd.membership, held);
    outs := [];
    NoneOut(sd);
    ok := true;
    for i := 0 to |data|
      invariant sd.Valid() && sd.mcus == mcus[..i] && |outs| == i && (ok <==> sd.clean)
      invariant ScanInRange(sd.scan, segs) ==> ok
      invariant Grouped(outs, sd.done, sd.blocks, sd.restartInterval, sd.restartsToGo)
      invariant forall k :: 0 <= k < i ==> AllHeld(sd.order, data[k]) == outs[k]
      invariant forall k :: i <= k < |data| ==> AllHeld(sd.order, data[k]) == held[k]
    {
      if ScanInRange(sd.scan, segs) {
        NextMcu(sd, held, segs, codes, m, tail, i);
      }
      MarkersNext(sd, held, codes, m, tail, i);
      OutsNext(sd, outs);
      var good := DecodeNext(sd, data, i, all, mcus[i + 1..]);
      ok := ok && good;
      SplitAt(mcus, i);
      outs := outs + [AllHeld(sd.order, data[i])];
    }
    assert mcus[..|data|] == mcus;
    Finish(sd, held, segs, codes, m, tail, outs);
    HoldMeans(sd.order, data, all, outs);
  }

  /** After the last MCU. */
  lemma Finish(sd: ScanDecoder, held: seq<seq<Zigzag>>, segs: seq<seq<Job>>, codes: seq<seq<byte>>,
               m: byte, tail: seq<byte>, outs: seq<seq<Zigzag>>)
    requires sd.Valid() && (forall i :: 0 <= i < |held| ==> |held[i]| == |sd.membership|)
    requires sd.mcus == SlotsOf(sd.membership, held)
    requires Grouped(outs, sd.done, sd.blocks, sd.restartInterval, sd.restartsToGo)
    requires AllValidJobs(sd.scan, segs) && 0 < m < 255
    requires ValidScan(sd.scan) && ValidStats(sd.zeroed) && AllValidSlots(sd.scan, AllSegments(sd, held))
    requires ScanFits(sd.scan, segs, AllSegments(sd, held)) && ScanCodes(sd.scan, segs, sd.zeroed, codes)
    requires sd.input == ScanBytes(codes, 0, [255, m] + tail)
    requires ParseScan(sd.scan, AllSegments(sd, held), sd.zeroed, 0, sd.input)
          == if ScanInRange(sd.scan, segs) then ScanResult.Complete(Wanted(sd, held, segs), At(m, tail)) else BadScan
    ensures sd.clean ==> ScanInRange(sd.scan, segs) && Concat(outs) == Concat(Wanted(sd, held, segs))
    ensures Fresh(sd.scan, sd.zeroed) ==>
              Contained(sd.scan, segs, AllSegments(sd, held), Segments(outs, sd.restartInterval))
  {
    hide ParseScan, ScanCodes, Segments, ScanInRange, ScanTargets, ValidJobs, ValidSlots, Concat, ScanBytes, ValidStats,
      Payload, End, Reached, Contained, LastCount, ScanDecoder.Valid, Fresh, AllFit;
    FitSizes(sd.scan, segs, AllSegments(sd, held));
    CodesCount(sd.scan, segs, sd.zeroed, codes);
    sd.LastSegment();
    ReachedBytes(sd.scan, sd.segs, sd.done, sd.zeroed, 0, sd.input, sd.dec.initial, sd.rest, codes, m, tail, sd.clean);
    FirstRead(codes[|sd.segs|..], |sd.segs|, m, tail);
    ConcatSegments(outs, sd.restartInterval);
    if sd.clean {
      sd.ScanResult();
    }
    if Fresh(sd.scan, sd.zeroed) {
      AllContained(sd, AllSegments(sd, held), segs, codes, m, tail);
    }
  }

  /** The finished segments and the last. */
  lemma AllContained(sd: ScanDecoder, slots: seq<seq<Slot>>, segs: seq<seq<Job>>, codes: seq<seq<byte>>, m: byte,
                     tail: seq<byte>)
    requires sd.Valid() && ValidScan(sd.scan) && ValidStats(sd.zeroed) && Fresh(sd.scan, sd.zeroed) && 0 < m < 255
    requires AllValidJobs(sd.scan, segs) && slots == Segments(sd.mcus, sd.restartInterval)
    requires ScanFits(sd.scan, segs, slots) && ScanCodes(sd.scan, segs, sd.zeroed, codes)
    requires sd.input == ScanBytes(codes, 0, [255, m] + tail)
    ensures Contained(sd.scan, segs, slots, sd.done + [sd.blocks])
  {
    hide *;
    var n := |sd.segs|;
    sd.LastSegment();
    LastFits(sd, slots, segs);
    ReachedContained(sd.scan, segs, sd.segs, sd.done, sd.zeroed, 0, sd.input, sd.dec.initial, sd.rest, codes, m, tail,
                     sd.clean);
    CodesCount(sd.scan, segs, sd.zeroed, codes);
    ReachedBytes(sd.scan, sd.segs, sd.done, sd.zeroed, 0, sd.input, sd.dec.initial, sd.rest, codes, m, tail, sd.clean);
    FirstRead(codes[n..], n, m, tail);
    CodesAlone(sd.scan, segs, sd.zeroed, codes, n);
    LastContained(sd, segs[n], codes[n]);
    ContainedSnoc(sd.scan, segs, sd.segs, sd.done, sd.current, sd.blocks);
  }

  lemma LastFits(sd: ScanDecoder, slots: seq<seq<Slot>>, segs: seq<seq<Job>>)
    requires sd.Valid() && slots == Segments(sd.mcus, sd.restartInterval) && ScanFits(sd.scan, segs, slots)
    requires AllValidJobs(sd.scan, segs)
    ensures slots == sd.segs + [sd.current] && |segs| == |sd.segs| + 1
    ensures forall i :: 0 <= i < |sd.segs| ==> AllFit(sd.scan, segs[i], sd.segs[i])
    ensures AllFit(sd.scan, segs[|sd.segs|], sd.current) && forall i :: 0 <= i < |segs| ==> ValidJobs(sd.scan, segs[i])
  {
    hide Segments, LastCount, ScanDecoder.Within, ScanDecoder.Closing, AllFit, ValidJobs;
    assert forall i :: 0 <= i < |sd.segs| ==> slots[i] == sd.segs[i];
  }

  lemma ContainedSnoc(s: Scan, segs: seq<seq<Job>>, slots: seq<seq<Slot>>, outs: seq<seq<Zigzag>>, slot: seq<Slot>,
                      out: seq<Zigzag>)
    requires ValidScan(s) && Contained(s, segs, slots, outs) && |slots| < |segs|
    requires AsSent(s, segs[|slots|], slot, out)
    ensures Contained(s, segs, slots + [slot], outs + [out])
  {
    hide AsSent;
  }

  lemma LastContained(sd: ScanDecoder, jobs: seq<Job>, code: seq<byte>)
    requires sd.Valid() && ValidScan(sd.scan) && ValidStats(sd.zeroed) && sd.dec.initial == sd.zeroed
    requires sd.dec.code == code && ValidJobs(sd.scan, jobs) && AllFit(sd.scan, jobs, sd.current)
    requires IsCode(Run(Coder(START, sd.zeroed), JobDecisions(sd.scan, StartPred(sd.scan), jobs)).iv, code)
    ensures AsSent(sd.scan, jobs, sd.current, sd.blocks)
  {
    hide Run, JobDecisions, ParseJobs, JobsInRange, IsCode, LegalRun, ValidStats, AllFit, ValidJobs, ValidSlots,
      Targets, ScanDecoder.Within, ScanDecoder.Closing, ArithDecoder.Valid, ArithDecoder.Coded, Grouped, ReadSoFar;
    sd.Opening();
    SegmentDecoded(sd.scan, jobs, sd.current, sd.zeroed, code);
  }

  lemma GivenMeans(sd: ScanDecoder, held: seq<seq<Zigzag>>, segs: seq<seq<Job>>, codes: seq<seq<byte>>, m: byte,
                   tail: seq<byte>)
    requires Given(sd, held, segs, codes, m, tail)
    ensures sd.Valid() && sd.mcus == [] && sd.done == [] && sd.blocks == [] && sd.clean && held != []
    ensures forall i :: 0 <= i < |held| ==> |held[i]| == |sd.membership|
    ensures ValidScan(sd.scan) && ValidStats(sd.zeroed)
    ensures AllValidSlots(sd.scan, AllSegments(sd, held)) && ScanFits(sd.scan, segs, AllSegments(sd, held))
    ensures AllValidJobs(sd.scan, segs) && forall i :: 0 <= i < |segs| ==> ValidJobs(sd.scan, segs[i])
    ensures ScanCodes(sd.scan, segs, sd.zeroed, codes) && 0 < m < 255
    ensures sd.input == ScanBytes(codes, 0, [255, m] + tail) && |codes| == |AllSegments(sd, held)|
  {
    hide ScanDecoder.Within, ScanDecoder.Closing, ScanCodes, ScanFits, AllValidSlots, Segments, ValidJobs;
    sd.Parts();
    sd.Given();
    CodesCount(sd.scan, segs, sd.zeroed, codes);
    FitSizes(sd.scan, segs, AllSegments(sd, held));
  }

  // ------------------------------------------------------- both objects

  lemma {:induction false} ConcatFit(s: Scan, jobs: seq<seq<Job>>, slots: seq<seq<Slot>>)
    requires ScanFits(s, jobs, slots)
    ensures AllFit(s, Concat(jobs), Concat(slots))
    decreases |jobs|
  {
    hide Fits;
    if jobs != [] {
      assert AllFit(s, jobs[0], slots[0]);
      ConcatFit(s, jobs[1..], slots[1..]);
    }
  }

  /** Segments fit when MCUs do. */
  lemma {:induction false} SegmentsFit(s: Scan, jobs: seq<seq<Job>>, slots: seq<seq<Slot>>, interval: nat)
    requires ScanFits(s, jobs, slots)
    ensures ScanFits(s, Segments(jobs, interval), Segments(slots, interval))
    decreases |jobs|
  {
    hide AllFit, Concat;
    if interval == 0 || |jobs| <= interval {
      ConcatFit(s, jobs, slots);
    } else {
      ConcatFit(s, jobs[..interval], slots[..interval]);
      SegmentsFit(s, jobs[interval..], slots[interval..], interval);
    }
  }

  lemma {:induction false} TargetsAppend(s: Scan, a: seq<Job>, x: seq<Slot>, b: seq<Job>, y: seq<Slot>)
    requires |a| == |x| && |b| == |y|
    ensures Targets(s, a + b, x + y) == Targets(s, a, x) + Targets(s, b, y)
  {
    hide Targets, Target;
  }

  lemma {:induction false} TargetsConcat(s: Scan, jobs: seq<seq<Job>>, slots: seq<seq<Slot>>)
    requires ScanFits(s, jobs, slots)
    ensures AllFit(s, Concat(jobs), Concat(slots))
    ensures Targets(s, Concat(jobs), Concat(slots)) == Concat(ScanTargets(s, jobs, slots))
    decreases |jobs|
  {
    hide Fits, Targets;
    ConcatFit(s, jobs, slots);
    if jobs != [] {
      assert AllFit(s, jobs[0], slots[0]);
      TargetsConcat(s, jobs[1..], slots[1..]);
      TargetsAppend(s, jobs[0], slots[0], Concat(jobs[1..]), Concat(slots[1..]));
    }
  }

  /** What the segments should give is what the MCUs should give. */
  lemma SegmentTargets(s: Scan, jobs: seq<seq<Job>>, slots: seq<seq<Slot>>, interval: nat)
    requires ScanFits(s, jobs, slots)
    ensures ScanFits(s, Segments(jobs, interval), Segments(slots, interval))
    ensures Concat(ScanTargets(s, Segments(jobs, interval), Segments(slots, interval)))
         == Concat(ScanTargets(s, jobs, slots))
  {
    hide *;
    SegmentsFit(s, jobs, slots, interval);
    TargetsConcat(s, Segments(jobs, interval), Segments(slots, interval));
    TargetsConcat(s, jobs, slots);
    ConcatSegments(jobs, interval);
    ConcatSegments(slots, interval);
  }

  ghost function JobsOf(order: seq<nat>, membership: seq<nat>, mcus: seq<seq<Zigzag>>): (r: seq<seq<Job>>)
    requires IsOrder(order) && forall i :: 0 <= i < |mcus| ==> |mcus[i]| == |membership|
    ensures |r| == |mcus| && forall i :: 0 <= i < |r| ==> r[i] == McuJobs(order, membership, mcus[i])
  {
    if mcus == [] then []
    else JobsOf(order, membership, mcus[..|mcus| - 1]) + [McuJobs(order, membership, mcus[|mcus| - 1])]
  }

  /** All MCUs of a scan through the encoder object. */
  method EncodeScan(se: ScanEncoder, mcus: seq<seq<Zigzag>>)
    requires se.Valid() && se.mcus == [] && IsOrder(se.order) && Sendable(se.membership, mcus)
    modifies se, se.enc
    ensures var segs := Segments(JobsOf(se.order, se.membership, mcus), se.restartInterval);
      && ValidScan(se.scan) && ValidStats(se.zeroed)
      && AllValidJobs(se.scan, segs) && ScanCodes(se.scan, segs, se.zeroed, se.codes)
      && se.enc.out == se.prior + ScanBytes(se.codes, 0, [])
  {
    hide *;
    SendableMeans(se.membership, mcus);
    ghost var jobs := JobsOf(se.order, se.membership, mcus);
    for i := 0 to |mcus|
      invariant se.Valid() && se.mcus == jobs[..i]
    {
      se.EncodeMcu(mcus[i]);
      SplitAt(jobs, i);
    }
    assert jobs[..|mcus|] == jobs;
    Members(se);
    se.FinishPass();
  }

  /** Each MCU can be decoded into what its arrays hold. */
  ghost predicate Matching(s: Scan, order: seq<nat>, membership: seq<nat>, mcus: seq<seq<Zigzag>>,
                           held: seq<seq<Zigzag>>)
  {
    && IsOrder(order) && |held| == |mcus| && mcus != [] && Sendable(membership, mcus)
    && (forall i :: 0 <= i < |held| ==> |held[i]| == |membership|)
    && ScanFits(s, JobsOf(order, membership, mcus), SlotsOf(membership, held))
  }

  lemma MatchingMeans(s: Scan, order: seq<nat>, membership: seq<nat>, mcus: seq<seq<Zigzag>>,
                      held: seq<seq<Zigzag>>, interval: nat)
    requires Matching(s, order, membership, mcus, held)
    ensures IsOrder(order) && |held| == |mcus| && held != [] && Sendable(membership, mcus)
    ensures forall i :: 0 <= i < |mcus| ==> |mcus[i]| == |membership|
    ensures forall i :: 0 <= i < |held| ==> |held[i]| == |membership|
    ensures var jobs, slots := JobsOf(order, membership, mcus), SlotsOf(membership, held);
      && ScanFits(s, jobs, slots)
      && ScanFits(s, Segments(jobs, interval), Segments(slots, interval))
      && AllValidSlots(s, Segments(slots, interval))
      && Concat(ScanTargets(s, Segments(jobs, interval), Segments(slots, interval)))
         == Concat(ScanTargets(s, jobs, slots))
  {
    hide JobsOf, SlotsOf, Segments, Concat, IsOrder, ValidSlots;
    var jobs, slots := JobsOf(order, membership, mcus), SlotsOf(membership, held);
    SegmentTargets(s, jobs, slots, interval);
    var a, b := Segments(jobs, interval), Segments(slots, interval);
    forall i | 0 <= i < |b|
      ensures ValidSlots(s, b[i])
    {
      FitsValid(s, a[i], b[i]);
    }
  }

  lemma GivenIs(sd: ScanDecoder, held: seq<seq<Zigzag>>, segs: seq<seq<Job>>, codes: seq<seq<byte>>, m: byte,
                tail: seq<byte>)
    requires sd.Valid() && sd.mcus == [] && held != []
    requires forall i :: 0 <= i < |held| ==> |held[i]| == |sd.membership|
    requires AllValidSlots(sd.scan, Segments(SlotsOf(sd.membership, held), sd.restartInterval))
    requires ScanFits(sd.scan, segs, Segments(SlotsOf(sd.membership, held), sd.restartInterval))
    requires ValidScan(sd.scan) && ValidStats(sd.zeroed) && AllValidJobs(sd.scan, segs)
    requires ScanCodes(sd.scan, segs, sd.zeroed, codes) && 0 < m < 255
    requires sd.done == [] && sd.blocks == [] && sd.clean
    requires sd.input == ScanBytes(codes, 0, [255, m] + tail)
    ensures Given(sd, held, segs, codes, m, tail)
    ensures Wanted(sd, held, segs)
         == ScanTargets(sd.scan, segs, Segments(SlotsOf(sd.membership, held), sd.restartInterval))
    ensures AllSegments(sd, held) == Segments(SlotsOf(sd.membership, held), sd.restartInterval)
  {
    hide ScanDecoder.Valid, ScanCodes, ScanFits, AllValidSlots, Segments, ValidJobs, ScanBytes;
  }

  lemma Members(se: ScanEncoder)
    requires se.Valid()
    ensures ValidScan(se.scan) && IsOrder(se.order) && ValidStats(se.zeroed)
    ensures forall i :: 0 <= i < |se.membership| ==> se.membership[i] < |se.scan.comps|
  {
    hide ScanEncoder.InSegment, ValidScan, ValidStats, WrittenSoFar, Grouped, IsOrder;
  }

  lemma Codes(s: Scan, segs: seq<seq<Job>>, stats: Stats, codes: seq<seq<byte>>)
    requires ValidScan(s) && ValidStats(stats) && AllValidJobs(s, segs) && ScanCodes(s, segs, stats, codes)
             && segs != []
    ensures codes != []
  {
    CodesCount(s, segs, stats, codes);
  }

  lemma TargetSizes(s: Scan, order: seq<nat>, membership: seq<nat>, mcus: seq<seq<Zigzag>>, held: seq<seq<Zigzag>>)
    requires Matching(s, order, membership, mcus, held)
    ensures var targets := ScanTargets(s, JobsOf(order, membership, mcus), SlotsOf(membership, held));
      |targets| == |mcus| && forall i :: 0 <= i < |mcus| ==> |targets[i]| == |membership|
  {
    hide Fits;
  }

  /** A scan from object to object: whatever the blocks, the restart interval and the bytes
      after the marker, the decoder takes all MCUs exactly when every DC difference is in its
      range, and then each block is the sent one as far as the scan covers it.  In any case so
      are the blocks of every segment whose differences are in range: restart markers keep the
      damage inside a segment. */
  method Transmit(se: ScanEncoder, mcus: seq<seq<Zigzag>>, stats: Stats, start: nat, m: byte,
                  tail: seq<byte>, data: seq<seq<array<int>>>, ghost all: set<array<int>>, ghost held: seq<seq<Zigzag>>)
    returns (ok: bool, ghost outs: seq<seq<Zigzag>>)
    requires se.Valid() && se.mcus == [] && stats == se.zeroed && start == |se.prior| && 0 < m < 255
    requires Matching(se.scan, se.order, se.membership, mcus, held)
    requires Apart(data, all) && |held| == |data| && Hold(se.order, data, all, held)
    modifies se, se.enc, all
    ensures var jobs, slots := JobsOf(se.order, se.membership, mcus), SlotsOf(se.membership, held);
      && ValidScan(se.scan) && AllValidJobs(se.scan, Segments(jobs, se.restartInterval))
      && (ok <==> ScanInRange(se.scan, Segments(jobs, se.restartInterval)))
      && Hold(se.order, data, all, outs) && (ok ==> outs == ScanTargets(se.scan, jobs, slots))
      && (Fresh(se.scan, stats) ==>
            Contained(se.scan, Segments(jobs, se.restartInterval), Segments(slots, se.restartInterval),
                      Segments(outs, se.restartInterval)))
  {
    hide *;
    MatchingMeans(se.scan, se.order, se.membership, mcus, held, se.restartInterval);
    Members(se);
    HoldSizes(se.order, data, all, held);
    ghost var jobs, slots := JobsOf(se.order, se.membership, mcus), SlotsOf(se.membership, held);
    EncodeScan(se, mcus);
    ghost var segs := Segments(jobs, se.restartInterval);
    Codes(se.scan, segs, se.zeroed, se.codes);
    ScanBytesRest(se.codes, 0, [255, m] + tail);
    assert se.enc.out[start..] == ScanBytes(se.codes, 0, []);
    var dec := new ArithDecoder(se.enc.out[start..] + ([255, m] + tail), stats);
    assert dec.src[dec.pos..] == dec.src;
    var sd := new ScanDecoder(dec, se.scan, se.order, se.membership, se.restartInterval);
    GivenIs(sd, held, segs, se.codes, m, tail);
    ok, outs := DecodeScan(sd, data, all, held, segs, se.codes, m, tail);
    if ok {
      TargetSizes(se.scan, se.order, se.membership, mcus, held);
      HoldSizes(se.order, data, all, outs);
      ConcatSame(outs, ScanTargets(se.scan, jobs, slots));
    }
  }
}
