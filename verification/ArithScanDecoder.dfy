/** A whole scan through the arithmetic decoder object: MCUs and restarts. */
module ArithScanDecoding {
  import opened Bytes
  import opened Coefficients
  import opened IntervalCoder
  import opened ArithBinarization
  import opened ArithScan
  import opened ArithSegment
  import opened ArithDecoding
  import opened ArithMcuEncoding
  import opened ArithMcuDecoding
  import opened RestartGroups

  lemma {:induction false} ParseSnoc(s: Scan, p: Pred, slots: seq<Slot>, slot: Slot, k: Coder, code: seq<byte>)
    requires ValidScan(s) && ValidPred(s, p) && ValidCoder(k) && ValidSlots(s, slots)
    requires slot.ci < |s.comps|
    ensures ValidSlots(s, slots + [slot])
    ensures var r := ParseJobs(s, p, slots, k, code);
      ParseJobs(s, p, slots + [slot], k, code)
      == if r.Bad? then r
         else
           var unit := ParseBlock(s, r.value.pred, slot.ci, slot.held, r.next, code);
           if unit.Bad? then Bad(unit.next)
           else Got(Units(r.value.blocks + [unit.value.block], unit.value.pred), unit.next)
    decreases |slots|
  {
    hide ParseBlock;
    if slots == [] {
      assert slots + [slot] == [slot] && [slot][1..] == [];
      var unit := ParseBlock(s, p, slot.ci, slot.held, k, code);
      if unit.Got? {
        assert [unit.value.block] + [] == [] + [unit.value.block];
      }
    } else {
      assert (slots + [slot])[0] == slots[0] && (slots + [slot])[1..] == slots[1..] + [slot];
      var unit := ParseBlock(s, p, slots[0].ci, slots[0].held, k, code);
      if unit.Got? {
        var q := unit.value.pred;
        ParseSnoc(s, q, slots[1..], slot, unit.next, code);
        var r := ParseJobs(s, q, slots[1..], unit.next, code);
        if r.Got? {
          var last := ParseBlock(s, r.value.pred, slot.ci, slot.held, r.next, code);
          if last.Got? {
            Regroup([unit.value.block], r.value.blocks, [last.value.block]);
          }
        }
      }
    }
  }

  /** What fails as far as some slot fails there with more slots. */
  lemma {:induction false} ParsePrefix(s: Scan, p: Pred, slots: seq<Slot>, more: seq<Slot>, k: Coder, code: seq<byte>)
    requires ValidScan(s) && ValidPred(s, p) && ValidCoder(k) && ValidSlots(s, slots) && ValidSlots(s, slots + more)
    requires ParseJobs(s, p, slots, k, code).Bad?
    ensures ParseJobs(s, p, slots + more, k, code) == ParseJobs(s, p, slots, k, code)
    decreases |slots|
  {
    hide ParseBlock;
    assert (slots + more)[0] == slots[0] && (slots + more)[1..] == slots[1..] + more;
    var unit := ParseBlock(s, p, slots[0].ci, slots[0].held, k, code);
    if unit.Got? {
      ParsePrefix(s, unit.value.pred, slots[1..], more, unit.next, code);
    }
  }

  ghost predicate AllValidSlots(s: Scan, segs: seq<seq<Slot>>)
  {
    forall i :: 0 <= i < |segs| ==> ValidSlots(s, segs[i])
  }

  /** The finished segments `slots`, read from `input`, gave `blocks`; the next
      segment begins at `rest` with bins `stats`.  Segments with a bad code, of
      which there are none if `clean`, gave anything. */
  ghost predicate Reached(s: Scan, slots: seq<seq<Slot>>, blocks: seq<seq<Zigzag>>, zeroed: Stats, n: nat,
                          input: seq<byte>, stats: Stats, rest: seq<byte>, clean: bool)
    requires ValidScan(s) && ValidStats(zeroed) && AllValidSlots(s, slots)
    decreases |slots|
  {
    if slots == [] then blocks == [] && stats == zeroed && rest == input
    else
      var seg := ParseJobs(s, StartPred(s), slots[0], Coder(START, zeroed), Payload(input));
      ZeroAreasValid(seg.next.stats, Areas(s));
      && blocks != [] && (clean ==> seg.Got?) && (seg.Got? ==> blocks[0] == seg.value.blocks)
      && End(input).At? && End(input).code == 0xD0 + n % 8
      && Reached(s, slots[1..], blocks[1..], ZeroAreas(seg.next.stats, Areas(s)), n + 1,
                 End(input).rest, stats, rest, clean)
  }

  lemma {:induction false} ReachedAnyhow(s: Scan, slots: seq<seq<Slot>>, blocks: seq<seq<Zigzag>>, zeroed: Stats,
                                         n: nat, input: seq<byte>, stats: Stats, rest: seq<byte>, clean: bool)
    requires ValidScan(s) && ValidStats(zeroed) && AllValidSlots(s, slots)
    requires Reached(s, slots, blocks, zeroed, n, input, stats, rest, clean)
    ensures Reached(s, slots, blocks, zeroed, n, input, stats, rest, false)
    decreases |slots|
  {
    hide ParseJobs, Payload, End, ZeroAreas, ValidStats, ValidSlots, Areas;
    if slots != [] {
      var seg := ParseJobs(s, StartPred(s), slots[0], Coder(START, zeroed), Payload(input));
      ZeroAreasValid(seg.next.stats, Areas(s));
      ReachedAnyhow(s, slots[1..], blocks[1..], ZeroAreas(seg.next.stats, Areas(s)), n + 1, End(input).rest, stats,
                    rest, clean);
    }
  }

  lemma {:induction false} ReachedSnoc(s: Scan, slots: seq<seq<Slot>>, blocks: seq<seq<Zigzag>>,
                                       zeroed: Stats, n: nat, input: seq<byte>, stats: Stats,
                                       rest: seq<byte>, clean: bool, seg: seq<Slot>, last: seq<Zigzag>)
    requires ValidScan(s) && ValidStats(zeroed) && ValidStats(stats) && AllValidSlots(s, slots)
    requires ValidSlots(s, seg) && Reached(s, slots, blocks, zeroed, n, input, stats, rest, clean)
    requires var r := ParseJobs(s, StartPred(s), seg, Coder(START, stats), Payload(rest));
      (clean ==> r.Got?) && (r.Got? ==> last == r.value.blocks)
    requires End(rest).At? && End(rest).code == 0xD0 + (n + |slots|) % 8
    ensures AllValidSlots(s, slots + [seg])
    ensures var r := ParseJobs(s, StartPred(s), seg, Coder(START, stats), Payload(rest));
      Reached(s, slots + [seg], blocks + [last], zeroed, n, input,
              ZeroAreas(r.next.stats, Areas(s)), End(rest).rest, clean)
    decreases |slots|
  {
    hide ParseJobs, Payload, End, ZeroAreas, ValidStats, ValidSlots, Areas;
    if slots == [] {
      assert slots + [seg] == [seg] && blocks + [last] == [last];
    } else {
      assert (slots + [seg])[0] == slots[0] && (slots + [seg])[1..] == slots[1..] + [seg];
      assert (blocks + [last])[0] == blocks[0] && (blocks + [last])[1..] == blocks[1..] + [last];
      var first := ParseJobs(s, StartPred(s), slots[0], Coder(START, zeroed), Payload(input));
      ZeroAreasValid(first.next.stats, Areas(s));
      ReachedSnoc(s, slots[1..], blocks[1..], ZeroAreas(first.next.stats, Areas(s)), n + 1,
                  End(input).rest, stats, rest, clean, seg, last);
    }
  }

  /** Decoding segment by segment is decoding the scan. */
  lemma {:induction false} ReachedScan(s: Scan, slots: seq<seq<Slot>>, blocks: seq<seq<Zigzag>>,
                                       zeroed: Stats, n: nat, input: seq<byte>, stats: Stats,
                                       rest: seq<byte>, seg: seq<Slot>)
    requires ValidScan(s) && ValidStats(zeroed) && ValidStats(stats) && AllValidSlots(s, slots)
    requires ValidSlots(s, seg) && Reached(s, slots, blocks, zeroed, n, input, stats, rest, true)
    requires ParseJobs(s, StartPred(s), seg, Coder(START, stats), Payload(rest)).Got? && End(rest).At?
    ensures AllValidSlots(s, slots + [seg])
    ensures var r := ParseJobs(s, StartPred(s), seg, Coder(START, stats), Payload(rest));
      ParseScan(s, slots + [seg], zeroed, n, input) == Complete(blocks + [r.value.blocks], End(rest))
    decreases |slots|
  {
    hide ParseJobs, Payload, End, ZeroAreas, ValidStats, ValidSlots, Areas;
    var r := ParseJobs(s, StartPred(s), seg, Coder(START, stats), Payload(rest));
    var last := r.value.blocks;
    if slots == [] {
      assert slots + [seg] == [seg] && blocks + [last] == [last];
    } else {
      assert (slots + [seg])[0] == slots[0] && (slots + [seg])[1..] == slots[1..] + [seg];
      var first := ParseJobs(s, StartPred(s), slots[0], Coder(START, zeroed), Payload(input));
      ZeroAreasValid(first.next.stats, Areas(s));
      ReachedScan(s, slots[1..], blocks[1..], ZeroAreas(first.next.stats, Areas(s)), n + 1,
                  End(input).rest, stats, rest, seg);
      assert [blocks[0]] + (blocks[1..] + [last]) == blocks + [last];
    }
  }

  /** If the scan decodes, so do the segments that are left. */
  lemma {:induction false} ReachedRest(s: Scan, slots: seq<seq<Slot>>, blocks: seq<seq<Zigzag>>, zeroed: Stats, n: nat,
                                       input: seq<byte>, stats: Stats, rest: seq<byte>, clean: bool,
                                       more: seq<seq<Slot>>)
    requires ValidScan(s) && ValidStats(zeroed) && ValidStats(stats) && AllValidSlots(s, slots) && more != []
    requires AllValidSlots(s, more) && AllValidSlots(s, slots + more)
    requires Reached(s, slots, blocks, zeroed, n, input, stats, rest, clean)
    requires ParseScan(s, slots + more, zeroed, n, input).Complete?
    ensures ParseScan(s, more, stats, n + |slots|, rest).Complete?
    decreases |slots|
  {
    hide ParseJobs, Payload, End, ZeroAreas, ValidStats, ValidSlots, Areas;
    if slots == [] {
      assert slots + more == more;
    } else {
      assert (slots + more)[0] == slots[0] && (slots + more)[1..] == slots[1..] + more;
      var first := ParseJobs(s, StartPred(s), slots[0], Coder(START, zeroed), Payload(input));
      ZeroAreasValid(first.next.stats, Areas(s));
      ReachedRest(s, slots[1..], blocks[1..], ZeroAreas(first.next.stats, Areas(s)), n + 1,
                  End(input).rest, stats, rest, clean, more);
    }
  }

  // --------------------------------------------------------------- decoder

  ghost function McuSlots(membership: seq<nat>, held: seq<Zigzag>): (slots: seq<Slot>)
    requires |membership| == |held|
    ensures |slots| == |held|
    ensures forall i :: 0 <= i < |held| ==> slots[i] == Slot(membership[i], held[i])
  {
    if held == [] then []
    else [Slot(membership[0], held[0])] + McuSlots(membership[1..], held[1..])
  }

  /** The slots `current` of a segment with this code gave `blocks` and led to
      `pred` and the coding state `k`. */
  ghost predicate Gave(s: Scan, current: seq<Slot>, blocks: seq<Zigzag>, pred: Pred, initial: Stats,
                       code: seq<byte>, k: Coder)
    requires ValidScan(s)
  {
    && ValidSlots(s, current) && ValidStats(initial)
    && ParseJobs(s, StartPred(s), current, Coder(START, initial), code) == Got(Units(blocks, pred), k)
  }

  lemma GaveStart(s: Scan, initial: Stats, code: seq<byte>)
    requires ValidScan(s) && ValidStats(initial)
    ensures Gave(s, [], [], StartPred(s), initial, code, Coder(START, initial))
    ensures ValidPred(s, StartPred(s))
  {
  }

  lemma GaveNext(s: Scan, current: seq<Slot>, blocks: seq<Zigzag>, pred: Pred, initial: Stats,
                 code: seq<byte>, k: Coder, slot: Slot)
    requires ValidScan(s) && Gave(s, current, blocks, pred, initial, code, k) && slot.ci < |s.comps|
    ensures ValidCoder(k) && ValidPred(s, pred)
    ensures var unit := ParseBlock(s, pred, slot.ci, slot.held, k, code);
      unit.Got? ==> Gave(s, current + [slot], blocks + [unit.value.block], unit.value.pred, initial, code,
                         unit.next)
    ensures ValidSlots(s, current + [slot]) && ValidStats(initial)
    ensures var unit := ParseBlock(s, pred, slot.ci, slot.held, k, code);
      unit.Bad? ==> Stuck(s, current + [slot], initial, code, unit.next)
  {
    ParseSnoc(s, StartPred(s), current, slot, Coder(START, initial), code);
    hide ParseJobs, ParseBlock;
  }

  lemma SoFarStart(s: Scan, initial: Stats, input: seq<byte>)
    requires ValidScan(s) && ValidStats(initial)
    ensures ReadSoFar(s, [], [], initial, 0, input, initial, Payload(input), End(input), input, true)
  {
    hide ParseJobs, Payload, End, ZeroAreas, ValidStats, Areas;
  }

  /** The code of the segment cannot be decoded as far as the last of `slots`. */
  ghost predicate Fails(s: Scan, slots: seq<Slot>, initial: Stats, code: seq<byte>)
    requires ValidScan(s)
  {
    && ValidSlots(s, slots) && ValidStats(initial)
    && ParseJobs(s, StartPred(s), slots, Coder(START, initial), code).Bad?
  }

  /** Decoding stopped at a bad code within the last of `slots`, in the coding state `k`. */
  ghost predicate Stuck(s: Scan, slots: seq<Slot>, initial: Stats, code: seq<byte>, k: Coder)
    requires ValidScan(s)
  {
    && ValidSlots(s, slots) && ValidStats(initial)
    && ParseJobs(s, StartPred(s), slots, Coder(START, initial), code) == Bad(k)
  }

  lemma StuckOn(s: Scan, slots: seq<Slot>, more: seq<Slot>, initial: Stats, code: seq<byte>, k: Coder)
    requires ValidScan(s) && Stuck(s, slots, initial, code, k) && ValidSlots(s, slots + more)
    ensures Stuck(s, slots + more, initial, code, k) && Fails(s, slots + more, initial, code)
  {
    ParsePrefix(s, StartPred(s), slots, more, Coder(START, initial), code);
  }

  lemma FailsOn(s: Scan, slots: seq<Slot>, more: seq<Slot>, initial: Stats, code: seq<byte>)
    requires ValidScan(s) && Fails(s, slots, initial, code) && ValidSlots(s, slots + more)
    ensures Fails(s, slots + more, initial, code)
  {
    ParsePrefix(s, StartPred(s), slots, more, Coder(START, initial), code);
  }

  /** The finished segments gave `done`; the one in progress begins at `rest`. */
  ghost predicate ReadSoFar(s: Scan, segs: seq<seq<Slot>>, done: seq<seq<Zigzag>>, zeroed: Stats,
                            next: nat, input: seq<byte>, initial: Stats, code: seq<byte>, ending: Ending,
                            rest: seq<byte>, clean: bool)
    requires ValidScan(s) && ValidStats(zeroed)
  {
    && ValidStats(initial) && AllValidSlots(s, segs) && next == |segs| % 8
    && Reached(s, segs, done, zeroed, 0, input, initial, rest, clean)
    && code == Payload(rest) && ending == End(rest)
  }

  /** If the scan with the segments `all` decodes, so does the segment in progress, and the
      marker after it is there. */
  lemma OnTrack(s: Scan, segs: seq<seq<Slot>>, done: seq<seq<Zigzag>>, zeroed: Stats, next: nat, input: seq<byte>,
                initial: Stats, code: seq<byte>, ending: Ending, rest: seq<byte>, clean: bool, current: seq<Slot>,
                all: seq<seq<Slot>>)
    requires ValidScan(s) && ValidStats(zeroed) && AllValidSlots(s, all)
    requires ReadSoFar(s, segs, done, zeroed, next, input, initial, code, ending, rest, clean)
    requires Prolongs(segs + [current], all) && ParseScan(s, all, zeroed, 0, input).Complete?
    ensures ending.At? && !Fails(s, current, initial, code)
    ensures |all| > |segs| + 1 ==> ending.code == 0xD0 + next
  {
    hide ParseJobs, Payload, End, ZeroAreas, ValidStats, ValidSlots, Areas, Reached, StartPred;
    var n := |segs|;
    assert (segs + [current])[..n] == segs && Last(segs + [current]) == current;
    var more := all[n..];
    assert all == segs + more && more[0] == all[n];
    assert forall i :: 0 <= i < |more| ==> more[i] == all[n + i];
    ReachedRest(s, segs, done, zeroed, 0, input, initial, rest, clean, more);
    assert ParseJobs(s, StartPred(s), more[0], Coder(START, initial), code).Got?;
    if Fails(s, current, initial, code) {
      assert more[0] == current + more[0][|current|..];
      FailsOn(s, current, more[0][|current|..], initial, code);
      assert false;
    }
  }

  lemma SegmentRead(s: Scan, segs: seq<seq<Slot>>, done: seq<seq<Zigzag>>, zeroed: Stats, next: nat,
                    input: seq<byte>, initial: Stats, code: seq<byte>, ending: Ending, rest: seq<byte>, clean: bool,
                    current: seq<Slot>, blocks: seq<Zigzag>, pred: Pred, k: Coder)
    requires ValidScan(s) && ValidStats(zeroed) && ValidCoder(k)
    requires ReadSoFar(s, segs, done, zeroed, next, input, initial, code, ending, rest, clean)
    requires Gave(s, current, blocks, pred, initial, code, k) || (!clean && Stuck(s, current, initial, code, k))
    requires ending.At? && ending.code == 0xD0 + next
    ensures ReadSoFar(s, segs + [current], done + [blocks], zeroed, (next + 1) % 8, input,
                      ZeroAreas(k.stats, Areas(s)), Payload(ending.rest), End(ending.rest), ending.rest, clean)
  {
    hide ParseJobs, Payload, End, ZeroAreas, ValidStats, ValidSlots, Areas, Reached;
    ZeroAreasValid(k.stats, Areas(s));
    ReachedSnoc(s, segs, done, zeroed, 0, input, initial, rest, clean, current, blocks);
  }

  lemma SoFarAnyhow(s: Scan, segs: seq<seq<Slot>>, done: seq<seq<Zigzag>>, zeroed: Stats, next: nat, input: seq<byte>,
                    initial: Stats, code: seq<byte>, ending: Ending, rest: seq<byte>, clean: bool)
    requires ValidScan(s) && ValidStats(zeroed)
    requires ReadSoFar(s, segs, done, zeroed, next, input, initial, code, ending, rest, clean)
    ensures ReadSoFar(s, segs, done, zeroed, next, input, initial, code, ending, rest, false)
  {
    hide Reached, ValidStats, ValidSlots, Payload, End;
    ReachedAnyhow(s, segs, done, zeroed, 0, input, initial, rest, clean);
  }

  lemma ScanRead(s: Scan, segs: seq<seq<Slot>>, done: seq<seq<Zigzag>>, zeroed: Stats, next: nat,
                 input: seq<byte>, initial: Stats, code: seq<byte>, ending: Ending, rest: seq<byte>,
                 current: seq<Slot>, blocks: seq<Zigzag>, pred: Pred, k: Coder)
    requires ValidScan(s) && ValidStats(zeroed) && ending.At?
    requires ReadSoFar(s, segs, done, zeroed, next, input, initial, code, ending, rest, true)
    requires Gave(s, current, blocks, pred, initial, code, k)
    ensures AllValidSlots(s, segs + [current])
    ensures ParseScan(s, segs + [current], zeroed, 0, input) == Complete(done + [blocks], ending)
  {
    hide ParseJobs, Payload, End, ValidStats, ValidSlots, Reached, ParseScan;
    ReachedScan(s, segs, done, zeroed, 0, input, initial, rest, current);
  }

  /** The part of the entropy decoder's state that spans segments. */
  class ScanDecoder {
    const dec: ArithDecoder
    const scan: Scan
    const order: seq<nat>
    const membership: seq<nat>     // component of each block of an MCU
    const restartInterval: nat
    var pred: Pred                 // DC predictions and contexts
    var restartsToGo: nat
    var nextRestartNum: nat        // kept by the marker reader
    var bad: bool                  // ct is -1: a bad code was met in the segment

    ghost const input: seq<byte>         // the scan begins here
    ghost const zeroed: Stats            // bins at the start
    ghost var mcus: seq<seq<Slot>>       // all MCUs so far
    ghost var segs: seq<seq<Slot>>       // finished segments
    ghost var done: seq<seq<Zigzag>>     // and their blocks
    ghost var current: seq<Slot>         // the segment in progress
    ghost var blocks: seq<Zigzag>        // and its blocks
    ghost var rest: seq<byte>            // input where it began
    ghost var clean: bool                // no bad code so far in the scan

    ghost predicate Parameters()
    {
      && ValidScan(scan) && IsOrder(order) && ValidStats(zeroed)
      && (forall i :: 0 <= i < |membership| ==> membership[i] < |scan.comps|)
    }

    /** Blocks and predictions are what the segment's code says. */
    ghost predicate InSegment()
      reads `pred, `current, `blocks, dec
    {
      && Parameters() && dec.Valid() && ValidPred(scan, pred)
      && Gave(scan, current, blocks, pred, dec.initial, dec.code, dec.Coded())
    }

    /** After a bad code, up to the next restart. */
    ghost predicate Skipping()
      reads `pred, `current, dec
    {
      && Parameters() && dec.Valid() && ValidPred(scan, pred)
      && Stuck(scan, current, dec.initial, dec.code, dec.Coded())
    }

    ghost predicate Closing()
      reads `segs, `done, `nextRestartNum, `rest, `clean, dec`initial, dec`code, dec`ending
    {
      && Parameters() && nextRestartNum < 8
      && ReadSoFar(scan, segs, done, zeroed, nextRestartNum, input, dec.initial, dec.code, dec.ending, rest, clean)
    }

    /** In a segment, decodable so far or not. */
    ghost predicate Within()
      reads `pred, `current, `blocks, `bad, `clean, dec
    {
      if bad then !clean && Skipping() else InSegment()
    }

    ghost predicate Valid()
      reads this, dec
    {
      Within() && Closing() && Grouped(mcus, segs, current, restartInterval, restartsToGo)
    }

    /** start_pass. */
    constructor (d: ArithDecoder, s: Scan, order: seq<nat>, membership: seq<nat>, interval: nat)
      requires ValidScan(s) && IsOrder(order) && d.Valid() && d.history == []
      requires ValidStats(d.initial) && d.pos <= |d.src|
      requires d.code == Payload(d.src[d.pos..]) && d.ending == End(d.src[d.pos..])
      requires forall i :: 0 <= i < |membership| ==> membership[i] < |s.comps|
      ensures Valid() && mcus == [] && done == [] && blocks == []
      ensures input == d.src[d.pos..] && zeroed == d.initial && dec == d
      ensures scan == s && this.order == order && this.membership == membership
      ensures restartInterval == interval && !bad && clean
    {
      dec, scan, this.order, this.membership, restartInterval := d, s, order, membership, interval;
      pred, restartsToGo, nextRestartNum, bad, clean := StartPred(s), interval, 0, false, true;
      input, zeroed := d.src[d.pos..], d.initial;
      mcus, segs, done, current, blocks, rest := [], [], [], [], [], d.src[d.pos..];
      new;
      hide ParseJobs, Payload, End, ZeroAreas, ValidStats, ArithDecoder.Valid, Run, Gave, ReadSoFar, Areas;
      GaveStart(scan, dec.initial, dec.code);
      SoFarStart(scan, dec.initial, input);
      dec.Kept();
      GroupedStart<Slot>(restartInterval);
    }

    /** process_restart. */
    method ProcessRestart() returns (ok: bool)
      requires Within() && Closing()
      modifies dec, `pred, `nextRestartNum, `bad, `segs, `done, `current, `blocks, `rest
      ensures ok ==> InSegment() && Closing() && !bad
      ensures ok ==> segs == old(segs) + [old(current)] && current == []
      ensures ok ==> done == old(done) + [old(blocks)] && blocks == []
      ensures ok <==> old(dec.ending).At? && old(dec.ending).code == 0xD0 + old(nextRestartNum)
      ensures ok ==> && dec.code == Payload(old(dec.ending).rest) && dec.ending == End(old(dec.ending).rest)
    {
      hide *;
      Opening();
      dec.Kept();
      ghost var k, code, ending := dec.Coded(), dec.code, dec.ending;
      ZeroAreasValid(k.stats, Areas(scan));
      GaveStart(scan, ZeroAreas(k.stats, Areas(scan)), if ending.At? then Payload(ending.rest) else []);
      var discarded;
      ok, discarded := dec.ProcessRestart(nextRestartNum, Areas(scan));
      if ok {
        dec.Kept();
        SegmentRead(scan, segs, done, zeroed, nextRestartNum, input, old(dec.initial), code, ending, rest, clean,
                    current, blocks, pred, k);
        segs, current, done, blocks := segs + [current], [], done + [blocks], [];
        rest, pred, nextRestartNum, bad := ending.rest, StartPred(scan), (nextRestartNum + 1) % 8, false;
        Reopened();
      }
    }

    lemma Opening()
      requires Within() && Closing()
      ensures Parameters() && ValidScan(scan) && ValidStats(zeroed) && dec.Valid() && nextRestartNum < 8
      ensures ReadSoFar(scan, segs, done, zeroed, nextRestartNum, input, dec.initial, dec.code, dec.ending, rest, clean)
      ensures || Gave(scan, current, blocks, pred, dec.initial, dec.code, dec.Coded())
              || (!clean && Stuck(scan, current, dec.initial, dec.code, dec.Coded()))
    {
      hide ArithDecoder.Valid, ArithDecoder.Coded, ReadSoFar, Gave, Stuck, ValidStats, IsOrder;
    }

    lemma Reopened()
      requires Parameters() && ValidScan(scan) && ValidStats(zeroed) && dec.Valid() && nextRestartNum < 8
      requires ValidPred(scan, pred) && Gave(scan, current, blocks, pred, dec.initial, dec.code, dec.Coded())
      requires ReadSoFar(scan, segs, done, zeroed, nextRestartNum, input, dec.initial, dec.code, dec.ending, rest,
                         clean)
      ensures InSegment() && Closing()
    {
      hide ArithDecoder.Valid, ArithDecoder.Coded, ReadSoFar, Gave, ValidStats, IsOrder;
    }

    /** Decode one block of an MCU. */
    method DecodeOne(ci: nat, block: array<int>) returns (r: Outcome<()>)
      requires InSegment() && ci < |scan.comps| && block.Length == 64
      modifies dec, `pred, `current, `blocks, block
      ensures r.Short? ==> old(dec.ending) == Cut
      ensures !r.Short? ==> && dec.code == old(dec.code) && dec.ending == old(dec.ending)
                            && dec.initial == old(dec.initial)
      ensures r.Value? ==>
                && InSegment()
                && current == old(current) + [Slot(ci, old(Held(order, block)))]
                && blocks == old(blocks) + [Held(order, block)]
      ensures r.Corrupt? ==>
                && Parameters() && dec.Valid() && ValidPred(scan, pred)
                && Stuck(scan, old(current) + [Slot(ci, old(Held(order, block)))], dec.initial, dec.code, dec.Coded())
    {
      hide ArithDecoder.Valid, Gave, Stuck, ParseBlock, Held, ValidStats, IsOrder, Run, StartPred;
      ghost var slot := Slot(ci, Held(order, block));
      GaveNext(scan, current, blocks, pred, dec.initial, dec.code, dec.Coded(), slot);
      var unit := DecodeBlock(dec, scan, pred, ci, order, block);
      match unit
      case Short => r := Short;
      case Corrupt => r := Corrupt;
      case Value(next) =>
        pred, current, blocks := next, current + [slot], blocks + [Held(order, block)];
        r := Value(());
    }

    lemma Members()
      requires InSegment()
      ensures IsOrder(order) && ValidScan(scan)
      ensures forall i :: 0 <= i < |membership| ==> membership[i] < |scan.comps|
    {
    }

    /** Decode the blocks of one MCU into the arrays. */
    method DecodeBlocks(data: seq<array<int>>) returns (r: Outcome<()>)
      requires InSegment() && |data| == |membership| && Blocks(data)
      modifies dec, `pred, `current, `blocks, data
      ensures r.Short? ==> old(dec.ending) == Cut
      ensures !r.Short? ==> && dec.code == old(dec.code) && dec.ending == old(dec.ending)
                            && dec.initial == old(dec.initial)
      ensures r.Value? ==>
                && InSegment()
                && current == old(current) + McuSlots(membership, old(AllHeld(order, data)))
                && blocks == old(blocks) + AllHeld(order, data)
      ensures r.Corrupt? ==>
                && Parameters() && dec.Valid() && ValidPred(scan, pred)
                && Stuck(scan, old(current) + McuSlots(membership, old(AllHeld(order, data))), dec.initial, dec.code,
                         dec.Coded())
    {
      hide *;
      Members();
      BlocksApart(data);
      ghost var held := AllHeld(order, data);
      ghost var slots := McuSlots(membership, held);
      SlotsValid(held);
      ghost var out: seq<Zigzag> := [];
      for blkn := 0 to |data|
        invariant InSegment() && |out| == blkn
        invariant dec.code == old(dec.code) && dec.ending == old(dec.ending)
        invariant dec.initial == old(dec.initial)
        invariant current == old(current) + slots[..blkn] && blocks == old(blocks) + out
        invariant forall i :: 0 <= i < blkn ==> Held(order, data[i]) == out[i]
        invariant forall i :: blkn <= i < |data| ==> Held(order, data[i]) == held[i]
      {
        ghost var before := current;
        var unit := DecodeOne(membership[blkn], data[blkn]);
        if !unit.Value? {
          if unit.Corrupt? {
            StuckWithin(old(current), slots, blkn, before + [Slot(membership[blkn], held[blkn])]);
          }
          return unit;
        }
        assert slots[..blkn + 1] == slots[..blkn] + [slots[blkn]];
        out := out + [Held(order, data[blkn])];
      }
      assert slots[..|data|] == slots && out == AllHeld(order, data);
      r := Value(());
    }

    lemma SlotsValid(held: seq<Zigzag>)
      requires InSegment() && |held| == |membership|
      ensures ValidScan(scan) && ValidSlots(scan, McuSlots(membership, held))
    {
    }

    lemma StuckWithin(start: seq<Slot>, slots: seq<Slot>, blkn: nat, upto: seq<Slot>)
      requires ValidScan(scan) && dec.Valid() && blkn < |slots| && upto == start + slots[..blkn] + [slots[blkn]]
      requires Stuck(scan, upto, dec.initial, dec.code, dec.Coded()) && ValidSlots(scan, slots)
      ensures Stuck(scan, start + slots, dec.initial, dec.code, dec.Coded())
    {
      hide ArithDecoder.Valid, ArithDecoder.Coded, ParseJobs, ValidStats;
      assert forall i :: 0 <= i < |start| ==> upto[i] == start[i];
      assert start + slots == upto + slots[blkn + 1..];
      StuckOn(scan, upto, slots[blkn + 1..], dec.initial, dec.code, dec.Coded());
    }

    /** A restart marker must come before the next MCU. */
    predicate RestartDue()
      reads `restartsToGo
    {
      restartInterval != 0 && restartsToGo == 0
    }

    // The segment that the next MCU is in.

    ghost function SegmentCode(): seq<byte>
      reads `restartsToGo, dec`code, dec`ending
    {
      if !RestartDue() then dec.code else if dec.ending.At? then Payload(dec.ending.rest) else []
    }

    ghost function SegmentEnding(): Ending
      reads `restartsToGo, dec`ending
    {
      if !RestartDue() then dec.ending else if dec.ending.At? then End(dec.ending.rest) else Cut
    }

    ghost function Done(): seq<Slot>
      reads `restartsToGo, `current
    {
      if RestartDue() then [] else current
    }

    // What the blocks of the next MCU are added to.

    ghost function BlocksDone(): seq<seq<Zigzag>>
      reads `restartsToGo, `done, `blocks
    {
      if RestartDue() then done + [blocks] else done
    }

    ghost function BlocksOpen(): seq<Zigzag>
      reads `restartsToGo, `blocks
    {
      if RestartDue() then [] else blocks
    }

    ghost function LeftToGo(): nat
      reads `restartsToGo
    {
      if restartInterval == 0 then restartsToGo
      else if restartsToGo == 0 then restartInterval - 1 else restartsToGo - 1
    }

    /** The restart marker is there if one is due, and a marker after the segment of the next MCU. */
    ghost predicate MarkersThere()
      reads `restartsToGo, `nextRestartNum, dec`ending
    {
      && (RestartDue() ==> dec.ending.At? && dec.ending.code == 0xD0 + nextRestartNum)
      && SegmentEnding() != Cut
    }

    /** The whole scan decodes, if after the MCUs so far `mcu` and then `later` are decoded. */
    ghost predicate Completes(mcu: seq<Slot>, later: seq<seq<Slot>>)
      reads `mcus
    {
      var all := Segments(mcus + [mcu] + later, restartInterval);
      ValidScan(scan) && ValidStats(zeroed) && AllValidSlots(scan, all)
        && ParseScan(scan, all, zeroed, 0, input).Complete?
    }

    /** The blocks of the MCU, which has been counted against the interval. */
    method DecodeCounted(data: seq<array<int>>) returns (r: Outcome<()>)
      requires !bad && InSegment() && Closing() && |data| == |membership| && Blocks(data) && IsOrder(order)
      requires var mcu := McuSlots(membership, AllHeld(order, data));
        Grouped(mcus + [mcu], segs, current + mcu, restartInterval, restartsToGo)
      modifies dec, `pred, `bad, `current, `blocks, `mcus, `clean, data
      ensures r.Short? ==> old(dec.ending) == Cut
      ensures !r.Short? ==>
                && Valid() && mcus == old(mcus) + [McuSlots(membership, old(AllHeld(order, data)))]
                && blocks == old(blocks) + AllHeld(order, data)
                && current == old(current) + McuSlots(membership, old(AllHeld(order, data)))
                && dec.code == old(dec.code) && dec.initial == old(dec.initial)
                && (r.Corrupt? <==> bad) && (r.Value? ==> clean == old(clean))
    {
      hide *;
      ghost var mcu := McuSlots(membership, AllHeld(order, data));
      ghost var was, had := current, blocks;
      Members();
      r := DecodeBlocks(data);
      mcus := mcus + [mcu];
      if r.Corrupt? {
        Soiled();
        bad, clean, current, blocks := true, false, was + mcu, had + AllHeld(order, data);
      }
      if !r.Short? {
        Whole();
      }
    }

    /** An MCU after a bad code: nothing is done. */
    method SkipMcu(data: seq<array<int>>)
      requires bad && Within() && Closing() && |data| == |membership| && Blocks(data) && IsOrder(order)
      requires var mcu := McuSlots(membership, AllHeld(order, data));
        Grouped(mcus + [mcu], segs, current + mcu, restartInterval, restartsToGo)
      modifies `current, `blocks, `mcus
      ensures Valid() && bad && mcus == old(mcus) + [McuSlots(membership, AllHeld(order, data))]
      ensures blocks == old(blocks) + AllHeld(order, data)
      ensures current == old(current) + McuSlots(membership, AllHeld(order, data))
    {
      hide *;
      ghost var mcu := McuSlots(membership, AllHeld(order, data));
      BadOn(AllHeld(order, data));
      mcus, current, blocks := mcus + [mcu], current + mcu, blocks + AllHeld(order, data);
      Whole();
    }

    /** One MCU, after the restart marker when the interval is used up.  `ok`
        is false on a wrong restart marker.  After a bad code nothing is decoded up to the next
        restart marker, and from there on everything again. */
    method DecodeMcu(data: seq<array<int>>, ghost later: seq<seq<Slot>>) returns (ok: bool, r: Outcome<()>)
      requires Valid() && |data| == |membership| && Blocks(data)
      modifies this, dec, data
      ensures !ok <==> old(RestartDue()) && !(old(dec.ending).At? && old(dec.ending).code == 0xD0 + old(nextRestartNum))
      ensures ok && r.Short? ==> old(SegmentEnding()) == Cut
      ensures ok && !r.Short? ==>
                && Valid() && mcus == old(mcus) + [McuSlots(membership, old(AllHeld(order, data)))]
                && done == old(BlocksDone()) && blocks == old(BlocksOpen()) + AllHeld(order, data)
                && restartsToGo == old(LeftToGo())
      ensures ok && !r.Short? ==>
                && dec.code == old(SegmentCode()) && ValidScan(scan)
                && (r.Corrupt?
                    <==> Fails(scan, old(Done()) + McuSlots(membership, old(AllHeld(order, data))), dec.initial,
                               dec.code))
      ensures ok && !r.Short? ==> (r.Corrupt? <==> bad) && clean == (old(clean) && r.Value?)
      ensures old(bad) && !old(RestartDue()) ==> ok && r.Corrupt? && AllHeld(order, data) == old(AllHeld(order, data))
      ensures old(Completes(McuSlots(membership, AllHeld(order, data)), later)) ==> ok && r.Value?
    {
      hide *;
      Parts();
      ghost var mcu := McuSlots(membership, AllHeld(order, data));
      GroupedNext(mcus, segs, current, restartInterval, restartsToGo, mcu);
      SegmentIs();
      ghost var on := Completes(mcu, later);
      r := Short;
      if restartInterval != 0 {
        if restartsToGo == 0 {
          if on {
            BeforeRestart(mcu, later);
          }
          ok := ProcessRestart();
          if !ok {
            return;
          }
          Reading();
          restartsToGo := restartInterval;
        }
        restartsToGo := restartsToGo - 1;
      }
      if on {
        GroupedIs(mcu, restartsToGo);
        BeforeBlocks(mcu, later);
      }
      ghost var start := current;
      if bad {
        SkipMcu(data);
        r := Corrupt;
      } else {
        Reading();
        r := DecodeCounted(data);
      }
      ok := true;
      if !r.Short? {
        Judged();
      }
    }

    /** Whether the segment can be decoded so far. */
    lemma Judged()
      requires Valid()
      ensures ValidScan(scan) && (bad <==> Fails(scan, current, dec.initial, dec.code)) && (bad ==> !clean)
    {
      hide ArithDecoder.Valid, ArithDecoder.Coded, ParseJobs, ReadSoFar, ValidStats, IsOrder;
    }

    lemma Reading()
      ensures InSegment() && !bad ==> Within()
      ensures Within() && !bad ==> InSegment()
    {
    }

    lemma Soiled()
      requires Closing()
      ensures Parameters() && nextRestartNum < 8
      ensures ReadSoFar(scan, segs, done, zeroed, nextRestartNum, input, dec.initial, dec.code, dec.ending, rest, false)
    {
      hide ReadSoFar, ValidStats, IsOrder;
      SoFarAnyhow(scan, segs, done, zeroed, nextRestartNum, input, dec.initial, dec.code, dec.ending, rest, clean);
    }

    lemma BadOn(held: seq<Zigzag>)
      requires bad && Within() && |held| == |membership|
      ensures Parameters() && dec.Valid() && ValidPred(scan, pred) && !clean
      ensures Stuck(scan, current + McuSlots(membership, held), dec.initial, dec.code, dec.Coded())
    {
      hide ArithDecoder.Valid, ArithDecoder.Coded, ParseJobs, ValidStats, IsOrder;
      StuckOn(scan, current, McuSlots(membership, held), dec.initial, dec.code, dec.Coded());
    }

    lemma SegmentIs()
      ensures RestartDue() <==> restartInterval != 0 && restartsToGo == 0
      ensures !RestartDue() ==> SegmentCode() == dec.code && SegmentEnding() == dec.ending && Done() == current
      ensures RestartDue() ==> Done() == [] && BlocksDone() == done + [blocks] && BlocksOpen() == []
      ensures !RestartDue() ==> BlocksDone() == done && BlocksOpen() == blocks
      ensures LeftToGo() == if restartInterval == 0 then restartsToGo
                            else (if restartsToGo == 0 then restartInterval else restartsToGo) - 1
      ensures RestartDue() && dec.ending.At? ==>
                SegmentCode() == Payload(dec.ending.rest) && SegmentEnding() == End(dec.ending.rest)
    {
    }

    /** When the scan decodes, the restart marker that is due comes next. */
    lemma BeforeRestart(mcu: seq<Slot>, later: seq<seq<Slot>>)
      requires Closing() && Grouped(mcus, segs, current, restartInterval, 0) && 0 < restartInterval
      requires Completes(mcu, later)
      ensures dec.ending.At? && dec.ending.code == 0xD0 + nextRestartNum
    {
      hide ReadSoFar, ParseScan, Segments, ValidStats, AllValidSlots, Prolongs, LastCount, Fails;
      var all := Segments(mcus + [mcu] + later, restartInterval);
      GroupedNext(mcus, segs, current, restartInterval, 0, mcu);
      SegmentsProlong(mcus, [mcu] + later, restartInterval);
      assert mcus + ([mcu] + later) == mcus + [mcu] + later;
      SegmentsProlong(mcus + [mcu], later, restartInterval);
      ProlongsSize(Segments(mcus + [mcu], restartInterval), all);
      OnTrack(scan, segs, done, zeroed, nextRestartNum, input, dec.initial, dec.code, dec.ending, rest, clean, current,
              all);
    }

    /** When the scan decodes, the blocks of the MCU do. */
    lemma BeforeBlocks(mcu: seq<Slot>, later: seq<seq<Slot>>)
      requires Closing() && Completes(mcu, later) && segs + [current + mcu] == Segments(mcus + [mcu], restartInterval)
      ensures dec.ending.At? && ValidScan(scan) && !Fails(scan, current + mcu, dec.initial, dec.code)
    {
      hide ReadSoFar, ParseScan, Segments, ValidStats, AllValidSlots, Prolongs, Fails;
      SegmentsProlong(mcus + [mcu], later, restartInterval);
      OnTrack(scan, segs, done, zeroed, nextRestartNum, input, dec.initial, dec.code, dec.ending, rest, clean,
              current + mcu, Segments(mcus + [mcu] + later, restartInterval));
    }

    lemma Parts()
      requires Valid()
      ensures Within() && Closing() && IsOrder(order) && ValidScan(scan)
      ensures Grouped(mcus, segs, current, restartInterval, restartsToGo)
    {
    }

    lemma Given()
      requires Closing()
      ensures ValidScan(scan) && ValidStats(zeroed)
    {
    }

    /** The segment in progress is the last of those so far. */
    lemma LastSegment()
      requires Valid()
      ensures ValidScan(scan) && ValidStats(zeroed) && AllValidSlots(scan, segs)
      ensures |Segments(mcus, restartInterval)| == |segs| + 1
      ensures Reached(scan, segs, done, zeroed, 0, input, dec.initial, rest, clean)
      ensures dec.code == Payload(rest) && dec.ending == End(rest) && nextRestartNum == |segs| % 8
    {
      hide Gave, Stuck, Reached, Segments, ArithDecoder.Valid, ValidSlots, End, Payload, ValidStats;
    }

    lemma CompletesIs(mcu: seq<Slot>, later: seq<seq<Slot>>, whole: seq<seq<Slot>>)
      requires whole == mcus + [mcu] + later && ValidScan(scan) && ValidStats(zeroed)
      requires AllValidSlots(scan, Segments(whole, restartInterval))
      requires ParseScan(scan, Segments(whole, restartInterval), zeroed, 0, input).Complete?
      ensures Completes(mcu, later)
    {
      hide ParseScan, AllValidSlots, ValidStats, Segments;
    }

    lemma GroupedIs(mcu: seq<Slot>, togo: nat)
      requires Grouped(mcus + [mcu], segs, current + mcu, restartInterval, togo)
      ensures segs + [current + mcu] == Segments(mcus + [mcu], restartInterval)
    {
    }

    lemma Whole()
      requires if bad then !clean && Parameters() && dec.Valid() && ValidPred(scan, pred)
                           && Stuck(scan, current, dec.initial, dec.code, dec.Coded())
               else InSegment()
      requires Closing() && Grouped(mcus, segs, current, restartInterval, restartsToGo)
      ensures Valid()
    {
    }

    /** After the last MCU: decoding MCU by MCU is decoding the scan. */
    lemma ScanResult()
      requires Valid() && dec.ending.At? && clean
      ensures forall i :: 0 <= i < |Segments(mcus, restartInterval)| ==>
                ValidSlots(scan, Segments(mcus, restartInterval)[i])
      ensures ParseScan(scan, Segments(mcus, restartInterval), zeroed, 0, input)
           == Complete(done + [blocks], dec.ending)
    {
      hide Gave, Stuck, ReadSoFar, ParseScan, Segments, ArithDecoder.Valid, ValidSlots;
      ScanRead(scan, segs, done, zeroed, nextRestartNum, input, dec.initial, dec.code, dec.ending, rest,
               current, blocks, pred, dec.Coded());
    }
  }
}
