/** A whole scan through the Huffman decoder object, in any mode: MCUs, restarts and
    suspension. */
module HuffmanScanDecoding {
  import opened Powers
  import opened Bytes
  import opened BitStreams
  import opened Coefficients
  import opened RestartGroups
  import opened HuffmanCode
  import opened HuffmanTables
  import opened HuffmanReader
  import opened HuffmanBlock
  import opened HuffmanScan
  import opened HuffmanMcuDecoding
  import opened ProgressiveMcuDecoding
  import B = ProgressiveBand

  lemma {:induction false} ParseSnoc(s: Scan, ts: seq<CompTables>, p: Pred, slots: seq<Slot>, slot: Slot,
                                     bits: seq<bit>, pos: nat)
    requires ValidScan(s) && Readable(s, ts) && |p.last| == s.comps && ValidSlots(s, slots) && slot.ci < s.comps
    ensures ValidSlots(s, slots + [slot])
    ensures var (blocks, after, q) := ParseSegment(s, ts, p, slots, bits, pos);
      var (b, next, end) := ParseBlock(s, ts, after, slot, bits, q);
      ParseSegment(s, ts, p, slots + [slot], bits, pos) == (blocks + [b], next, end)
    decreases |slots|
  {
    hide ParseBlock, Readable;
    if slots == [] {
      assert slots + [slot] == [slot] && [slot][1..] == [];
      var (b, next, end) := ParseBlock(s, ts, p, slot, bits, pos);
      assert [b] + [] == [] + [b];
    } else {
      assert (slots + [slot])[0] == slots[0] && (slots + [slot])[1..] == slots[1..] + [slot];
      var (b, next, q) := ParseBlock(s, ts, p, slots[0], bits, pos);
      ParseSnoc(s, ts, next, slots[1..], slot, bits, q);
      var (rest, after, end) := ParseSegment(s, ts, next, slots[1..], bits, q);
      Regroup([b], rest, [ParseBlock(s, ts, after, slot, bits, end).0]);
    }
  }

  /** The slots at the front of a segment with bytes `data` gave `blocks`, led to
      `pred`, and end at bit `at`. */
  ghost predicate Gave(s: Scan, ts: seq<CompTables>, slots: seq<Slot>, blocks: seq<Zigzag>, pred: Pred,
                       data: seq<byte>, at: nat)
    requires ValidScan(s) && Readable(s, ts)
  {
    ValidSlots(s, slots) && (blocks, pred, at) == ParseSegment(s, ts, NoPred(s), slots, Unpack(data), 0)
  }

  lemma GaveStart(s: Scan, ts: seq<CompTables>, data: seq<byte>)
    requires ValidScan(s) && Readable(s, ts)
    ensures Gave(s, ts, [], [], NoPred(s), data, 0)
  {
  }

  lemma GaveNext(s: Scan, ts: seq<CompTables>, slots: seq<Slot>, blocks: seq<Zigzag>, pred: Pred, data: seq<byte>,
                 at: nat, slot: Slot)
    requires ValidScan(s) && Readable(s, ts) && Gave(s, ts, slots, blocks, pred, data, at) && slot.ci < s.comps
    ensures |pred.last| == s.comps
    ensures var (b, next, q) := ParseBlock(s, ts, pred, slot, Unpack(data), at);
      Gave(s, ts, slots + [slot], blocks + [b], next, data, q)
  {
    hide ParseBlock, ParseSegment, Unpack, Readable;
    ParseSnoc(s, ts, NoPred(s), slots, slot, Unpack(data), 0);
  }

  ghost function SegmentBlocks(s: Scan, ts: seq<CompTables>, slots: seq<Slot>, data: seq<byte>): seq<Zigzag>
    requires ValidScan(s) && Readable(s, ts) && ValidSlots(s, slots)
  {
    ParseSegment(s, ts, NoPred(s), slots, Unpack(data), 0).0
  }

  /** The finished segments gave `done`; the one in progress begins at `rest`. */
  ghost predicate ReadSoFar(s: Scan, ts: seq<CompTables>, segs: seq<seq<Slot>>, done: seq<seq<Zigzag>>, n: nat,
                            input: seq<byte>, rest: seq<byte>)
    requires ValidScan(s) && Readable(s, ts)
    decreases |segs|
  {
    if segs == [] then done == [] && rest == input
    else
      && ValidSlots(s, segs[0]) && done != []
      && done[0] == SegmentBlocks(s, ts, segs[0], Payload(input))
      && End(input).At? && End(input).code == 0xD0 + n % 8
      && ReadSoFar(s, ts, segs[1..], done[1..], n + 1, End(input).rest, rest)
  }

  lemma {:induction false} SegmentRead(s: Scan, ts: seq<CompTables>, segs: seq<seq<Slot>>, done: seq<seq<Zigzag>>,
                                       n: nat, input: seq<byte>, rest: seq<byte>, seg: seq<Slot>)
    requires ValidScan(s) && Readable(s, ts) && ReadSoFar(s, ts, segs, done, n, input, rest) && ValidSlots(s, seg)
    requires End(rest).At? && End(rest).code == 0xD0 + (n + |segs|) % 8
    ensures var blocks := SegmentBlocks(s, ts, seg, Payload(rest));
      ReadSoFar(s, ts, segs + [seg], done + [blocks], n, input, End(rest).rest)
    decreases |segs|
  {
    hide SegmentBlocks, Payload, End, Readable, ValidSlots;
    var blocks := SegmentBlocks(s, ts, seg, Payload(rest));
    if segs == [] {
      assert segs + [seg] == [seg] && [seg][1..] == [] && done + [blocks] == [blocks];
    } else {
      assert (segs + [seg])[0] == segs[0] && (segs + [seg])[1..] == segs[1..] + [seg];
      assert (done + [blocks])[0] == done[0] && (done + [blocks])[1..] == done[1..] + [blocks];
      SegmentRead(s, ts, segs[1..], done[1..], n + 1, End(input).rest, rest, seg);
    }
  }

  ghost predicate AllValid(s: Scan, segs: seq<seq<Slot>>)
  {
    forall i :: 0 <= i < |segs| ==> ValidSlots(s, segs[i])
  }

  lemma {:induction false} ReadValid(s: Scan, ts: seq<CompTables>, segs: seq<seq<Slot>>, done: seq<seq<Zigzag>>, n: nat,
                                     input: seq<byte>, rest: seq<byte>, seg: seq<Slot>)
    requires ValidScan(s) && Readable(s, ts) && ReadSoFar(s, ts, segs, done, n, input, rest) && ValidSlots(s, seg)
    ensures AllValid(s, segs + [seg])
    decreases |segs|
  {
    hide SegmentBlocks, Payload, End, Readable, ValidSlots;
    if segs != [] {
      ReadValid(s, ts, segs[1..], done[1..], n + 1, End(input).rest, rest, seg);
      var all := segs + [seg];
      assert all[1..] == segs[1..] + [seg];
      assert forall i :: 0 < i < |all| ==> all[i] == all[1..][i - 1];
    }
  }

  lemma ParseScanStep(s: Scan, ts: seq<CompTables>, slots: seq<seq<Slot>>, n: nat, input: seq<byte>)
    requires ValidScan(s) && Readable(s, ts) && AllValid(s, slots) && |slots| > 1 && End(input).At?
    requires End(input).code == 0xD0 + n % 8
    ensures ValidSlots(s, slots[0]) && AllValid(s, slots[1..])
    ensures var first := SegmentBlocks(s, ts, slots[0], Payload(input));
      match ParseScan(s, ts, slots[1..], n + 1, End(input).rest)
      case Complete(blocks, ending) => ParseScan(s, ts, slots, n, input) == Complete([first] + blocks, ending)
      case BadScan => ParseScan(s, ts, slots, n, input) == BadScan
  {
    hide ParseSegment, Payload, End, Unpack, Readable, ValidSlots;
  }

  /** Decoding segment by segment is decoding the scan. */
  lemma {:induction false} ScanRead(s: Scan, ts: seq<CompTables>, segs: seq<seq<Slot>>, done: seq<seq<Zigzag>>, n: nat,
                                    input: seq<byte>, rest: seq<byte>, seg: seq<Slot>)
    requires ValidScan(s) && Readable(s, ts) && ReadSoFar(s, ts, segs, done, n, input, rest) && ValidSlots(s, seg)
    requires End(rest).At?
    ensures AllValid(s, segs + [seg])
    ensures var blocks := SegmentBlocks(s, ts, seg, Payload(rest));
      ParseScan(s, ts, segs + [seg], n, input) == Complete(done + [blocks], End(rest))
    decreases |segs|
  {
    hide ParseSegment, Payload, End, Unpack, Readable, ValidSlots, AllValid;
    var blocks := SegmentBlocks(s, ts, seg, Payload(rest));
    ReadValid(s, ts, segs, done, n, input, rest, seg);
    if segs == [] {
      assert segs + [seg] == [seg] && done + [blocks] == [blocks];
      OneSegmentScan(s, ts, seg, n, input);
    } else {
      assert (segs + [seg])[0] == segs[0] && (segs + [seg])[1..] == segs[1..] + [seg];
      ParseScanStep(s, ts, segs + [seg], n, input);
      ScanRead(s, ts, segs[1..], done[1..], n + 1, End(input).rest, rest, seg);
      assert [done[0]] + (done[1..] + [blocks]) == done + [blocks];
    }
  }

  /** The segments that are left have what the whole scan has. */
  lemma {:induction false} ReadAmple(s: Scan, ts: seq<CompTables>, segs: seq<seq<Slot>>, done: seq<seq<Zigzag>>, n: nat,
                                     input: seq<byte>, rest: seq<byte>, more: seq<seq<Slot>>)
    requires ValidScan(s) && Readable(s, ts) && ReadSoFar(s, ts, segs, done, n, input, rest) && more != []
    requires AllValid(s, more) && AllValid(s, segs + more) && Ample(s, ts, segs + more, n, input)
    ensures Ample(s, ts, more, n + |segs|, rest)
    decreases |segs|
  {
    hide SegmentBlocks, ParseSegment, Payload, End, Unpack, Readable, ValidSlots;
    if segs == [] {
      assert segs + more == more;
    } else {
      assert (segs + more)[0] == segs[0] && (segs + more)[1..] == segs[1..] + more;
      assert forall i :: 0 <= i < |segs[1..] + more| ==> (segs[1..] + more)[i] == (segs + more)[i + 1];
      ReadAmple(s, ts, segs[1..], done[1..], n + 1, End(input).rest, rest, more);
    }
  }

  /** In a scan that has all it needs, so has the segment in progress. */
  lemma OnTrack(s: Scan, ts: seq<CompTables>, segs: seq<seq<Slot>>, done: seq<seq<Zigzag>>, input: seq<byte>,
                rest: seq<byte>, current: seq<Slot>, all: seq<seq<Slot>>)
    requires ValidScan(s) && Readable(s, ts) && ReadSoFar(s, ts, segs, done, 0, input, rest) && ValidSlots(s, current)
    requires AllValid(s, all) && Prolongs(segs + [current], all) && Ample(s, ts, all, 0, input)
    ensures End(rest).At? && (|all| > |segs| + 1 ==> End(rest).code == 0xD0 + |segs| % 8)
    ensures ParseSegment(s, ts, NoPred(s), current, Unpack(Payload(rest)), 0).2 <= 8 * |Payload(rest)|
  {
    hide ReadSoFar, ParseSegment, Payload, End, Unpack, Readable, ValidSlots;
    var n := |segs|;
    var more := all[n..];
    assert (segs + [current])[..n] == segs && Last(segs + [current]) == current;
    assert all == segs + more && more[0] == all[n];
    assert forall i :: 0 <= i < |more| ==> more[i] == all[n + i];
    ReadAmple(s, ts, segs, done, 0, input, rest, more);
    var tail := more[0][|current|..];
    assert more[0] == current + tail;
    SegmentPrefix(s, ts, NoPred(s), current, tail, Unpack(Payload(rest)), 0);
  }

  lemma OneSegmentScan(s: Scan, ts: seq<CompTables>, seg: seq<Slot>, n: nat, input: seq<byte>)
    requires ValidScan(s) && Readable(s, ts) && ValidSlots(s, seg) && AllValid(s, [seg]) && End(input).At?
    ensures ParseScan(s, ts, [seg], n, input) == Complete([SegmentBlocks(s, ts, seg, Payload(input))], End(input))
  {
    hide ParseSegment, Payload, End, Unpack, Readable;
  }

  // -------------------------------------------------- touched blocks, in every mode

  /** p1 of the scan, and the other factor of 2^15. */
  lemma ScanBit(s: Scan)
    requires ValidScan(s)
    ensures BitPlace(Pow2(s.al), Pow2(15 - s.al)) && 0 < Pow2(s.al) <= 0x2000
  {
    Pow2Small();
    Pow2Add(s.al, 15 - s.al);
    Pow2Monotone(s.al, 13);
    Pow2Add(8, 5);
    Pow2Add(8, 7);
  }

  lemma OrTwice(x: int, al: nat)
    requires al <= 13
    ensures var p1 := Pow2(al); OrBit(OrBit(x, p1), p1) == OrBit(x, p1)
  {
    var p1, h := Pow2(al), Pow2(15 - al);
    Pow2Small();
    Pow2Add(8, 7);
    Pow2Add(al, 15 - al);
    hide Pow2, ToCoef;
    OrAgain(x, p1, h);
  }

  lemma OrAgain(x: int, p1: nat, h: nat)
    requires 0 < p1 && p1 * h == 0x8000
    ensures OrBit(OrBit(x, p1), p1) == OrBit(x, p1)
  {
    hide ToCoef;
    NextParity(x, p1, true);
    ParityKept(x + p1, p1, h);
  }

  lemma TouchedDc(cur: Zigzag, base: Zigzag, final: Zigzag, v: int)
    requires Touched(false, cur, base, final) && forall j :: 0 < j < 64 ==> final[j] == base[j]
    ensures forall j :: 0 < j < 64 ==> cur[j] == base[j]
    ensures cur[0] == base[0] || cur[0] == final[0]
    ensures cur[0 := v] == base[0 := v]
  {
    assert forall j :: 0 <= j < 64 ==> TouchedAt(false, cur[j], base[j], final[j]);
    assert cur[0 := v] == base[0 := v];
  }

  lemma DcFirstStored(s: Scan, ts: seq<CompTables>, saved: Pred, ci: nat, base: Zigzag, bits: seq<bit>, pos: nat)
    requires ValidScan(s) && Readable(s, ts) && |saved.last| == s.comps && ci < s.comps && s.mode == DcFirst
    ensures ReadableAt(s, ts[ci])
    ensures var (diff, q) := ParseDcDiff(ts[ci].dcTable, bits, pos);
      var dc := saved.last[ci] + diff;
      ParseBlock(s, ts, saved, Slot(ci, base), bits, pos)
      == (base[0 := ToCoef(dc * Pow2(s.al))], saved.(last := saved.last[ci := dc]), q)
  {
    hide ParseDcDiff, ToCoef, Pow2;
    assert ReadableAt(s, ts[ci]);
  }

  function DcBit(s: Scan, b: Zigzag, bits: seq<bit>, pos: nat): Zigzag
  {
    if BitAt(bits, pos) == 1 then b[0 := OrBit(b[0], Pow2(s.al))] else b
  }

  lemma DcRefineIs(s: Scan, ts: seq<CompTables>, saved: Pred, ci: nat, base: Zigzag, bits: seq<bit>, pos: nat)
    requires ValidScan(s) && Readable(s, ts) && |saved.last| == s.comps && ci < s.comps && s.mode == DcRefine
    ensures ParseBlock(s, ts, saved, Slot(ci, base), bits, pos) == (DcBit(s, base, bits, pos), saved, pos + 1)
  {
    hide OrBit, Readable;
  }

  lemma SequentialIs(s: Scan, ts: seq<CompTables>, saved: Pred, ci: nat, base: Zigzag, bits: seq<bit>, pos: nat)
    requires ValidScan(s) && Readable(s, ts) && |saved.last| == s.comps && ci < s.comps
    requires s.mode == Sequential
    ensures ReadableAt(s, ts[ci])
    ensures var (b, dc, q) := ParseLimited(ts[ci].dcTable, ts[ci].acTable, saved.last[ci], s.se, s.se + 1, bits, pos,
                                           base);
      ParseBlock(s, ts, saved, Slot(ci, base), bits, pos) == (b, saved.(last := saved.last[ci := dc]), q)
  {
    hide ParseDcDiff, ToCoef, ParseAc, ParseLimited;
    assert ReadableAt(s, ts[ci]);
    WantedAll(ts[ci].dcTable, ts[ci].acTable, saved.last[ci], s.se, bits, pos, base);
  }

  lemma AcIs(s: Scan, ts: seq<CompTables>, saved: Pred, ci: nat, base: Zigzag, bits: seq<bit>, pos: nat)
    requires ValidScan(s) && Readable(s, ts) && |saved.last| == s.comps && ci < s.comps && IsAc(s.mode)
    ensures ReadableAt(s, ts[ci])
    ensures var (b, run, q) := B.BlockBand(s.mode == AcRefine, ts[ci].acTable, base, s.ss, saved.run, s.se, Pow2(s.al),
                                           bits, pos);
      ParseBlock(s, ts, saved, Slot(ci, base), bits, pos) == (b, saved.(run := run), q)
  {
    hide B.BlockBand;
    assert ReadableAt(s, ts[ci]);
  }

  lemma ReadableOne(s: Scan, ts: seq<CompTables>, ci: nat)
    requires Readable(s, ts) && ci < s.comps
    ensures |ts| == s.comps && ReadableAt(s, ts[ci])
  {
  }

  /** From a block that suspended attempts have touched, a block decodes to the same as
      from the untouched one, on any stream. */
  lemma TouchedSame(s: Scan, ts: seq<CompTables>, p: Pred, ci: nat, cur: Zigzag, base: Zigzag, bits: seq<bit>, pos: nat)
    requires ValidScan(s) && Readable(s, ts) && |p.last| == s.comps && ci < s.comps
    requires IsJcoef(cur) && IsJcoef(base)
    requires Touched(s.mode == AcRefine, cur, base, ParseBlock(s, ts, p, Slot(ci, base), bits, pos).0)
    ensures ParseBlock(s, ts, p, Slot(ci, cur), bits, pos) == ParseBlock(s, ts, p, Slot(ci, base), bits, pos)
  {
    hide ParseDcDiff, ParseLimited, ToCoef, B.BlockBand, Touched, Pow2, IsJcoef, ParseBlock, Readable, BitPlace, Upto,
      DcBit;
    ScanBit(s);
    ReadableOne(s, ts, ci);
    var c, h, last := ts[ci], Pow2(15 - s.al), p.last[ci];
    match s.mode {
      case Sequential =>
        SequentialIs(s, ts, p, ci, base, bits, pos);
        SequentialIs(s, ts, p, ci, cur, bits, pos);
        SameFromPartial(c.dcTable, c.acTable, last, s.se, s.se + 1, bits, pos, cur, base);
      case DcFirst =>
        DcFirstStored(s, ts, p, ci, base, bits, pos);
        DcFirstStored(s, ts, p, ci, cur, bits, pos);
        var dc := last + ParseDcDiff(c.dcTable, bits, pos).0;
        TouchedDc(cur, base, ParseBlock(s, ts, p, Slot(ci, base), bits, pos).0, ToCoef(dc * Pow2(s.al)));
      case DcRefine =>
        DcRefineIs(s, ts, p, ci, base, bits, pos);
        DcRefineIs(s, ts, p, ci, cur, bits, pos);
        TouchedDcBit(s, cur, base, bits, pos);
      case AcFirst =>
        AcIs(s, ts, p, ci, base, bits, pos);
        AcIs(s, ts, p, ci, cur, bits, pos);
        SameFromTouched(false, c.acTable, cur, base, s.ss, p.run, s.se, Pow2(s.al), bits, pos, h);
      case AcRefine =>
        AcIs(s, ts, p, ci, base, bits, pos);
        AcIs(s, ts, p, ci, cur, bits, pos);
        SameFromTouched(true, c.acTable, cur, base, s.ss, p.run, s.se, Pow2(s.al), bits, pos, h);
    }
  }

  lemma TouchedDcBit(s: Scan, cur: Zigzag, base: Zigzag, bits: seq<bit>, pos: nat)
    requires ValidScan(s) && Touched(false, cur, base, DcBit(s, base, bits, pos))
    ensures DcBit(s, cur, bits, pos) == DcBit(s, base, bits, pos)
  {
    hide OrBit, Touched;
    TouchedDc(cur, base, DcBit(s, base, bits, pos), OrBit(base[0], Pow2(s.al)));
    OrTwice(base[0], s.al);
    TouchedDc(cur, base, DcBit(s, base, bits, pos), base[0]);
    assert base[0 := base[0]] == base && cur[0 := cur[0]] == cur;
  }

  lemma TouchedChain(refine: bool, now: Zigzag, cur: Zigzag, base: Zigzag, final: Zigzag)
    requires Touched(refine, now, cur, final) && Touched(refine, cur, base, final)
    ensures Touched(refine, now, base, final)
  {
    forall j | 0 <= j < 64
      ensures TouchedAt(refine, now[j], base[j], final[j])
    {
      assert TouchedAt(refine, now[j], cur[j], final[j]) && TouchedAt(refine, cur[j], base[j], final[j]);
    }
  }

  // ----------------------------------------------------------------- decoder

  /** Decoding tables of a component. */
  datatype DTables = DTables(dc: DTable, ac: DTable)

  ghost predicate DecoderAt(s: Scan, c: CompTables, d: DTables)
  {
    && ReadableAt(s, c)
    && (UsesDc(s.mode) ==> && Decoder(c.dcTable, d.dc)
                           && forall p :: 0 <= p < Upto(c.dcTable.bits, 16) ==> c.dcTable.vals[p] <= 15)
    && (UsesAc(s) ==> Decoder(c.acTable, d.ac))
  }

  /** The scan's tables have been derived. */
  ghost predicate DecoderTables(s: Scan, ts: seq<CompTables>, ds: seq<DTables>)
  {
    && Readable(s, ts) && |ds| == |ts|
    && forall i :: 0 <= i < |ts| ==> DecoderAt(s, ts[i], ds[i])
  }

  lemma TablesAt(s: Scan, ts: seq<CompTables>, ds: seq<DTables>, ci: nat)
    requires DecoderTables(s, ts, ds) && ci < s.comps
    ensures |ds| == |ts| == s.comps && DecoderAt(s, ts[ci], ds[ci]) && Readable(s, ts)
  {
  }

  /** A table that jpeg_make_d_derived_tbl accepts. */
  ghost predicate Acceptable(t: Table, isDC: bool)
    requires WellFormed(t)
  {
    && Upto(t.bits, 16) <= 256 && Roomy(t.bits)
    && (isDC ==> forall p :: 0 <= p < Upto(t.bits, 16) ==> t.vals[p] <= 15)
  }

  /** All tables that the scan needs are. */
  ghost predicate AllAcceptable(s: Scan, ts: seq<CompTables>)
  {
    forall i :: 0 <= i < |ts| ==>
      && Shaped(ts[i]) && (UsesDc(s.mode) ==> Acceptable(ts[i].dcTable, true))
      && (UsesAc(s) ==> Acceptable(ts[i].acTable, false))
  }

  method DeriveOne(needed: bool, isDC: bool, t: Table) returns (ok: bool, d: DTable)
    requires WellFormed(t) && Bytewise(t)
    ensures ok <==> !needed || Acceptable(t, isDC)
    ensures ok && needed ==> Decoder(t, d)
  {
    hide Roomy, Upto, DecodesTable;
    ok, d := true, DTable([], [], [], []);
    if needed {
      ok, d := MakeDDerived(t, isDC);
    }
  }

  /** start_pass_huff_decoder: the derived tables of all components.  Any table with room
      for its codes will do; the symbols need not be distinct. */
  method DeriveTables(s: Scan, ts: seq<CompTables>) returns (ok: bool, ds: seq<DTables>)
    requires |ts| == s.comps && (forall i :: 0 <= i < |ts| ==> Shaped(ts[i]))
    requires forall i :: 0 <= i < |ts| ==> Bytewise(ts[i].dcTable) && Bytewise(ts[i].acTable)
    ensures ok <==> AllAcceptable(s, ts)
    ensures ok ==> DecoderTables(s, ts, ds)
  {
    hide Roomy, Upto, DecodesTable, Decoder, Bytewise;
    ds := [];
    for i := 0 to |ts|
      invariant |ds| == i && AllAcceptable(s, ts[..i])
      invariant forall k :: 0 <= k < i ==> DecoderAt(s, ts[k], ds[k])
    {
      var dc, ac;
      ok, dc := DeriveOne(UsesDc(s.mode), true, ts[i].dcTable);
      if !ok {
        return;
      }
      ok, ac := DeriveOne(UsesAc(s), false, ts[i].acTable);
      if !ok {
        return;
      }
      ds := ds + [DTables(dc, ac)];
    }
    assert ts[..|ts|] == ts;
    ok := true;
  }

  function McuSlots(membership: seq<nat>, bases: seq<Zigzag>): (slots: seq<Slot>)
    requires |membership| == |bases|
    ensures |slots| == |bases| && forall i :: 0 <= i < |bases| ==> slots[i] == Slot(membership[i], bases[i])
  {
    seq(|bases|, i requires 0 <= i < |bases| => Slot(membership[i], bases[i]))
  }

  /** The blocks `held` are what attempts that ran out of input may leave of `bases`,
      when `final` is what decoding gives. */
  ghost predicate Startable(s: Scan, bases: seq<Zigzag>, final: seq<Zigzag>, held: seq<Zigzag>)
  {
    && |final| == |held| == |bases|
    && forall i :: 0 <= i < |held| ==> Touched(s.mode == AcRefine, held[i], bases[i], final[i])
  }

  lemma Untouched(s: Scan, bases: seq<Zigzag>, final: seq<Zigzag>)
    requires |final| == |bases|
    ensures Startable(s, bases, final, bases)
  {
  }

  ghost predicate AllJcoef(held: seq<Zigzag>)
  {
    forall i :: 0 <= i < |held| ==> IsJcoef(held[i])
  }

  lemma ParseFirst(s: Scan, ts: seq<CompTables>, p: Pred, slots: seq<Slot>, bits: seq<bit>, pos: nat)
    requires ValidScan(s) && Readable(s, ts) && |p.last| == s.comps && ValidSlots(s, slots) && slots != []
    ensures ValidSlots(s, slots[1..])
    ensures var (b, next, q) := ParseBlock(s, ts, p, slots[0], bits, pos);
      var all, rest := ParseSegment(s, ts, p, slots, bits, pos).0, ParseSegment(s, ts, next, slots[1..], bits, q).0;
      all[0] == b && all[1..] == rest
  {
    hide ParseBlock, Readable;
  }

  lemma ValidFrom(s: Scan, slots: seq<Slot>, i: nat)
    requires ValidSlots(s, slots) && i <= |slots|
    ensures ValidSlots(s, slots[i..]) && (i < |slots| ==> slots[i].ci < s.comps)
  {
  }

  /** One step of decoding an MCU: the first of the blocks still to come is `b`. */
  lemma StepMcu(s: Scan, ts: seq<CompTables>, p: Pred, slots: seq<Slot>, i: nat, final: seq<Zigzag>, bits: seq<bit>,
                pos: nat)
    requires ValidScan(s) && Readable(s, ts) && |p.last| == s.comps && ValidSlots(s, slots) && i < |slots| == |final|
    requires ValidSlots(s, slots[i..]) && ParseSegment(s, ts, p, slots[i..], bits, pos).0 == final[i..]
    ensures ValidSlots(s, slots[i + 1..]) && slots[i].ci < s.comps
    ensures var (b, next, q) := ParseBlock(s, ts, p, slots[i], bits, pos);
      b == final[i] && ParseSegment(s, ts, next, slots[i + 1..], bits, q).0 == final[i + 1..]
  {
    hide ParseBlock, ParseSegment, Readable, ValidSlots;
    ValidFrom(s, slots, i);
    ParseFirst(s, ts, p, slots[i..], bits, pos);
    assert slots[i..][1..] == slots[i + 1..] && final[i..][1..] == final[i + 1..];
  }

  twostate lemma SameStart(r: BitReader)
    requires r.Valid() && unchanged(r)
    ensures SameSegment(r) && Supplied(r)
  {
  }

  lemma NotTouched(refine: bool, b: Zigzag, final: Zigzag)
    ensures Touched(refine, b, b, final)
  {
  }

  /** decode_mcu_DC_first, for one block. */
  method DecodeDcFirst(r: BitReader, s: Scan, ghost ts: seq<CompTables>, d: DTables, order: seq<nat>, saved: Pred,
                       ci: nat, block: array<int>, t: CompTables) returns (ok: bool, next: Pred)
    requires r.Valid() && ValidScan(s) && s.mode == DcFirst && IsOrder(order) && block.Length == 64
    requires ci < s.comps && |saved.last| == s.comps && Readable(s, ts) && t == ts[ci] && DecoderAt(s, t, d)
    requires IsJcoef(Held(order, block))
    modifies r, block
    ensures SameSegment(r) && (if ok then Supplied(r) else r.Stopped()) && IsJcoef(Held(order, block))
    ensures |next.last| == s.comps
    ensures var res := ParseBlock(s, ts, saved, Slot(ci, old(Held(order, block))), Unpack(r.data), old(r.at));
      if ok then (Held(order, block), next, r.at) == res
      else Touched(false, Held(order, block), old(Held(order, block)), res.0)
  {
    hide BitReader.Valid, BitReader.Stopped, SameSegment, Supplied, Unpack, Decoder, ParseDcDiff, Held, Upto, IsOrder,
      IsJcoef, ToCoef, Pow2, ParseBlock, Touched, Readable;
    DecoderMeans(t.dcTable, d.dc);
    DcFirstStored(s, ts, saved, ci, Held(order, block), Unpack(r.data), r.at);
    NotTouched(false, Held(order, block),
               ParseBlock(s, ts, saved, Slot(ci, Held(order, block)), Unpack(r.data), r.at).0);
    next := saved;
    var diff;
    ok, diff := DecodeDc(r, t.dcTable, d.dc, true);
    StillSame(r);
    if ok {
      var dc := saved.last[ci] + diff;
      next := saved.(last := saved.last[ci := dc]);
      JcoefStore(Held(order, block), 0, ToCoef(dc * Pow2(s.al)));
      Store(order, block, 0, ToCoef(dc * Pow2(s.al)));
    }
  }

  /** decode_mcu_DC_refine, for one block. */
  method DecodeDcRefine(r: BitReader, s: Scan, ghost ts: seq<CompTables>, order: seq<nat>, saved: Pred, ci: nat,
                        block: array<int>) returns (ok: bool)
    requires r.Valid() && ValidScan(s) && s.mode == DcRefine && IsOrder(order) && block.Length == 64
    requires ci < s.comps && |saved.last| == s.comps && Readable(s, ts)
    requires IsJcoef(Held(order, block))
    modifies r, block
    ensures SameSegment(r) && (if ok then Supplied(r) else r.Stopped()) && IsJcoef(Held(order, block))
    ensures var res := ParseBlock(s, ts, saved, Slot(ci, old(Held(order, block))), Unpack(r.data), old(r.at));
      if ok then (Held(order, block), saved, r.at) == res
      else Touched(false, Held(order, block), old(Held(order, block)), res.0)
  {
    hide BitReader.Valid, Unpack, Held, Upto, IsOrder, IsJcoef, ToCoef, Pow2, OrBit, Window, BitAt;
    ScanBit(s);
    var p1 := Pow2(s.al);
    HeldAt(order, block, 0);
    FirstOrdered(order);
    var x := block[0];
    ok := r.CheckBitBuffer(1);
    if ok {
      WindowOne(Unpack(r.data), r.at);
      var bit := r.GetBits(1);
      if bit == 1 {
        OrBitFits(Held(order, block), p1);
        Store(order, block, 0, OrBit(x, p1));
      }
    }
  }

  lemma FirstOrdered(order: seq<nat>)
    requires IsOrder(order)
    ensures |order| == 64 && order[0] == 0
  {
  }

  lemma OrBitFits(b: Zigzag, p1: nat)
    requires IsJcoef(b) && 0 < p1
    ensures IsJcoef(b[0 := OrBit(b[0], p1)])
  {
  }

  /** Decode a block of the scan by its mode.  When the input runs out, the block is
      one that the next attempt can start from. */
  method DecodeByMode(r: BitReader, s: Scan, ghost ts: seq<CompTables>, d: DTables, order: seq<nat>, saved: Pred,
                      ci: nat, block: array<int>, t: CompTables) returns (ok: bool, next: Pred)
    requires r.Valid() && ValidScan(s) && IsOrder(order) && block.Length == 64
    requires ci < s.comps && |saved.last| == s.comps && Readable(s, ts) && t == ts[ci] && DecoderAt(s, t, d)
    requires IsJcoef(Held(order, block))
    modifies r, block
    ensures SameSegment(r) && (if ok then Supplied(r) else r.Stopped()) && IsJcoef(Held(order, block))
    ensures |next.last| == s.comps
    ensures var res := ParseBlock(s, ts, saved, Slot(ci, old(Held(order, block))), Unpack(r.data), old(r.at));
      if ok then (Held(order, block), next, r.at) == res
      else Touched(s.mode == AcRefine, Held(order, block), old(Held(order, block)), res.0)
  {
    hide BitReader.Valid, BitReader.Stopped, SameSegment, Supplied, Unpack, Decoder, ParseLimited, B.BlockBand, Held,
      Upto, IsOrder, IsJcoef, ParseBlock, Touched, Readable, BitPlace, Pow2;
    ScanBit(s);
    next := saved;
    match s.mode {
      case Sequential =>
        SequentialIs(s, ts, saved, ci, Held(order, block), Unpack(r.data), r.at);
        var dc;
        ok, dc := DecodeBlock(r, t.dcTable, d.dc, t.acTable, d.ac, order, block, saved.last[ci], s.se, s.se + 1);
        StillSame(r);
        next := if ok then saved.(last := saved.last[ci := dc]) else saved;
      case DcFirst =>
        ok, next := DecodeDcFirst(r, s, ts, d, order, saved, ci, block, t);
      case DcRefine =>
        ok := DecodeDcRefine(r, s, ts, order, saved, ci, block);
      case AcFirst =>
        AcIs(s, ts, saved, ci, Held(order, block), Unpack(r.data), r.at);
        var left;
        ok, left := DecodeFirst(r, t.acTable, d.ac, order, block, s.ss, s.se, Pow2(s.al), saved.run);
        StillSame(r);
        next := if ok then saved.(run := left) else saved;
      case AcRefine =>
        AcIs(s, ts, saved, ci, Held(order, block), Unpack(r.data), r.at);
        var left;
        ok, left := DecodeRefine(r, t.acTable, d.ac, order, block, s.ss, s.se, Pow2(s.al), Pow2(15 - s.al),
                                 saved.run);
        StillSame(r);
        next := if ok then saved.(run := left) else saved;
    }
  }

  /** The first `i` blocks are decoded; AC scans have one block per MCU. */
  ghost predicate Halfway(s: Scan, bases: seq<Zigzag>, final: seq<Zigzag>, held: seq<Zigzag>, i: nat)
  {
    && |final| == |held| == |bases| && (IsAc(s.mode) ==> |held| == 1)
    && (forall k :: 0 <= k < |held| ==> IsJcoef(held[k]) && IsJcoef(bases[k]))
    && (forall k :: 0 <= k < i && k < |held| ==> held[k] == final[k])
    && forall k :: i <= k < |held| ==> Touched(s.mode == AcRefine, held[k], bases[k], final[k])
  }

  lemma HalfwayAt(s: Scan, bases: seq<Zigzag>, final: seq<Zigzag>, held: seq<Zigzag>, i: nat)
    requires Halfway(s, bases, final, held, i) && i < |held|
    ensures Touched(s.mode == AcRefine, held[i], bases[i], final[i]) && IsJcoef(held[i]) && IsJcoef(bases[i])
  {
  }

  lemma HalfwayNext(s: Scan, bases: seq<Zigzag>, final: seq<Zigzag>, held: seq<Zigzag>, i: nat, now: Zigzag, ok: bool)
    requires Halfway(s, bases, final, held, i) && i < |held| && IsJcoef(now)
    requires if ok then now == final[i] else Touched(s.mode == AcRefine, now, bases[i], final[i])
    ensures ok ==> Halfway(s, bases, final, held[i := now], i + 1)
    ensures !ok ==> Startable(s, bases, final, held[i := now]) && AllJcoef(held[i := now])
  {
    hide IsJcoef, Touched;
    if s.mode != AcRefine {
      FinalTouched(bases, final);
    }
  }

  lemma HalfwayEnd(s: Scan, bases: seq<Zigzag>, final: seq<Zigzag>, held: seq<Zigzag>)
    requires Halfway(s, bases, final, held, |held|)
    ensures held == final && AllJcoef(held)
  {
    hide IsJcoef, Touched;
  }

  lemma FinalTouched(bases: seq<Zigzag>, final: seq<Zigzag>)
    requires |bases| == |final|
    ensures forall k :: 0 <= k < |final| ==> Touched(false, final[k], bases[k], final[k])
  {
  }

  /** The MCU was decoded, left blank after a segment that ended too soon, stopped
      for more input, or a wrong marker was found. */
  datatype McuResult = Decoded | Blank | Suspended | NoRestart

  /** The decoder's state beyond the bit buffer.  In sequential mode all coefficients are
      wanted; fewer make no difference to those (`McusSkippingSafe`). */
  class ScanDecoder {
    const r: BitReader
    const scan: Scan
    const tables: seq<CompTables>
    const derived: seq<DTables>
    const order: seq<nat>
    const membership: seq<nat>
    const restartInterval: nat
    var saved: Pred                      // predictions and end-of-band run
    var restartsToGo: nat
    var nextRestartNum: nat

    ghost const input: seq<byte>         // the scan begins here
    ghost var mcus: seq<seq<Slot>>       // all MCUs, with what their blocks held
    ghost var segs: seq<seq<Slot>>       // blocks of finished segments
    ghost var done: seq<seq<Zigzag>>     // and what they gave
    ghost var current: seq<Slot>         // the segment in progress
    ghost var blocks: seq<Zigzag>        // and its blocks
    ghost var upto: nat                  // and the bit where they end
    ghost var rest: seq<byte>            // input where it began

    ghost predicate Parameters()
    {
      && ValidScan(scan) && Readable(scan, tables) && DecoderTables(scan, tables, derived) && IsOrder(order)
      && (forall i :: 0 <= i < |membership| ==> membership[i] < scan.comps)
      && (IsAc(scan.mode) ==> |membership| == 1)
    }

    /** The blocks are what the bits of the segment up to `upto` say. */
    ghost predicate Coded()
      reads `saved, `current, `blocks, `upto, r
    {
      Parameters() && r.Valid() && Gave(scan, tables, current, blocks, saved, r.data, upto)
    }

    ghost predicate InSegment()
      reads `saved, `current, `blocks, `upto, r
    {
      Coded() && r.at == upto
    }

    ghost predicate Closing()
      reads `segs, `done, `nextRestartNum, `rest, r`data, r`ending
    {
      && Parameters() && nextRestartNum == |segs| % 8
      && ReadSoFar(scan, tables, segs, done, 0, input, rest) && r.data == Payload(rest) && r.ending == End(rest)
    }

    predicate RestartDue()
      reads `restartsToGo
    {
      0 < restartInterval && restartsToGo == 0
    }

    /** Zeros have been made up only if the blocks need more bits than the segment has. */
    ghost predicate Enough()
      reads `upto, r`data, r`insufficient
    {
      r.insufficient ==> 8 * |r.data| < upto
    }

    /** Before a restart some input may have been skipped already. */
    ghost predicate Valid()
      reads this, r
    {
      && Coded() && Closing() && Enough() && (RestartDue() || InSegment())
      && Ready(mcus, segs, current, restartInterval, restartsToGo)
    }

    /** What the blocks of an MCU that begins at bit `at` come to, from `bases`. */
    ghost function Finals(bases: seq<Zigzag>, at: nat): (final: seq<Zigzag>)
      requires Coded() && |bases| == |membership|
      reads `saved, `current, `blocks, `upto, r
      ensures |final| == |bases|
    {
      SavedSize();
      SlotsValid(bases);
      ParseSegment(scan, tables, saved, McuSlots(membership, bases), Unpack(r.data), at).0
    }

    lemma SavedSize()
      requires Coded()
      ensures |saved.last| == scan.comps
    {
      hide ParseSegment, Unpack, Readable, BitReader.Valid;
    }

    lemma SlotsValid(bases: seq<Zigzag>)
      requires Parameters() && |bases| == |membership|
      ensures ValidSlots(scan, McuSlots(membership, bases))
    {
    }

    /** The arrays hold `bases`, or what attempts at this MCU have made of them. */
    ghost predicate MayHold(data: seq<array<int>>, bases: seq<Zigzag>)
      requires Coded() && Blocks(data) && |data| == |membership| == |bases| && IsOrder(order)
      reads `restartsToGo, `saved, `current, `blocks, `upto, r, data
    {
      if RestartDue() then AllHeld(order, data) == bases
      else Startable(scan, bases, Finals(bases, upto), AllHeld(order, data))
    }

    lemma Parts()
      requires Valid()
      ensures Coded() && Closing() && Parameters() && r.Valid() && IsOrder(order) && ValidScan(scan)
      ensures Readable(scan, tables) && Enough() && (RestartDue() || InSegment())
      ensures Ready(mcus, segs, current, restartInterval, restartsToGo)
    {
    }

    /** What is known of the segments, field by field. */
    lemma Apart()
      requires Coded() && Closing()
      ensures Parameters() && ValidScan(scan) && IsOrder(order) && r.Valid() && nextRestartNum == |segs| % 8
      ensures Readable(scan, tables) && Gave(scan, tables, current, blocks, saved, r.data, upto)
      ensures ReadSoFar(scan, tables, segs, done, 0, input, rest) && r.data == Payload(rest) && r.ending == End(rest)
    {
    }

    lemma Together()
      requires Parameters() && ValidScan(scan) && Readable(scan, tables) && r.Valid() && nextRestartNum == |segs| % 8
      requires Gave(scan, tables, current, blocks, saved, r.data, upto)
      requires ReadSoFar(scan, tables, segs, done, 0, input, rest) && r.data == Payload(rest) && r.ending == End(rest)
      ensures Coded() && Closing() && (r.at == upto ==> InSegment())
    {
    }

    lemma Close()
      requires Parameters() && ValidScan(scan) && Readable(scan, tables) && nextRestartNum == |segs| % 8
      requires ReadSoFar(scan, tables, segs, done, 0, input, rest) && r.data == Payload(rest) && r.ending == End(rest)
      ensures Closing()
    {
    }

    lemma CodedMeans()
      requires Coded()
      ensures Parameters() && ValidScan(scan) && Readable(scan, tables) && IsOrder(order)
      ensures Gave(scan, tables, current, blocks, saved, r.data, upto)
    {
    }

    lemma CodedAgain()
      requires Parameters() && ValidScan(scan) && Readable(scan, tables) && r.Valid() && r.at == upto
      requires Gave(scan, tables, current, blocks, saved, r.data, upto)
      ensures Coded() && InSegment()
    {
    }

    lemma Whole()
      requires Coded() && Closing() && Enough() && (RestartDue() || InSegment())
      requires Ready(mcus, segs, current, restartInterval, restartsToGo)
      ensures Valid()
    {
    }

    /** What a restart leads to. */
    lemma NextSegment()
      requires Coded() && Closing() && r.ending.At? && r.ending.code == 0xD0 + nextRestartNum
      ensures ValidScan(scan) && Readable(scan, tables)
      ensures ReadSoFar(scan, tables, segs + [current], done + [blocks], 0, input, r.ending.rest)
      ensures Gave(scan, tables, [], [], NoPred(scan), Payload(r.ending.rest), 0)
    {
      hide ReadSoFar, Payload, End, DecoderTables, IsOrder, ParseSegment, Unpack, NoPred, Readable;
      GaveStart(scan, tables, Payload(r.ending.rest));
      SegmentRead(scan, tables, segs, done, 0, input, rest, current);
    }

    /** The arrays may simply hold what the MCU starts from. */
    lemma UntouchedWillDo(data: seq<array<int>>)
      requires Coded() && Blocks(data) && |data| == |membership| && IsOrder(order)
      ensures MayHold(data, AllHeld(order, data))
    {
      hide Held, ParseSegment, Unpack, Startable;
      Untouched(scan, AllHeld(order, data), Finals(AllHeld(order, data), upto));
    }

    /** start_pass. */
    constructor (r: BitReader, s: Scan, ts: seq<CompTables>, ds: seq<DTables>, order: seq<nat>,
                 membership: seq<nat>, interval: nat)
      requires ValidScan(s) && Readable(s, ts) && DecoderTables(s, ts, ds) && IsOrder(order)
      requires r.Valid() && r.at == 0 && !r.insufficient && r.pos <= |r.src|
      requires r.data == Payload(r.src[r.pos..]) && r.ending == End(r.src[r.pos..])
      requires forall i :: 0 <= i < |membership| ==> membership[i] < s.comps
      requires IsAc(s.mode) ==> |membership| == 1
      ensures Valid() && mcus == [] && done == [] && blocks == []
      ensures input == r.src[r.pos..] && this.r == r && scan == s && tables == ts
      ensures this.order == order && this.membership == membership && restartInterval == interval
    {
      this.r, scan, tables, derived, this.order, this.membership := r, s, ts, ds, order, membership;
      restartInterval, saved, restartsToGo, nextRestartNum := interval, NoPred(s), interval, 0;
      input := r.src[r.pos..];
      mcus, segs, done, current, blocks, upto, rest := [], [], [], [], [], 0, r.src[r.pos..];
    }

    /** process_restart. */
    method ProcessRestart() returns (read: RestartRead)
      requires Coded() && Closing()
      modifies r, `saved, `nextRestartNum, `segs, `done, `current, `blocks, `upto, `rest
      ensures r.src == old(r.src) && r.supplied == old(r.supplied)
      ensures read.Found? ==> && InSegment() && Closing() && !r.insufficient
                              && segs == old(segs) + [old(current)] && current == []
                              && done == old(done) + [old(blocks)] && blocks == []
      ensures read.Waiting? ==> && Coded() && Closing() && r.Starved()
                                && segs == old(segs) && current == old(current)
                                && done == old(done) && blocks == old(blocks)
                                && (old(Enough()) ==> Enough())
      ensures read.Found? <==> old(r.ending).At? && old(r.ending).code == 0xD0 + old(nextRestartNum) && !read.Waiting?
      ensures read.Unexpected? ==> old(r.ending).At? && old(r.ending).code != 0xD0 + old(nextRestartNum)
    {
      hide *;
      Apart();
      ghost var ending := r.ending;
      if ending.At? && ending.code == 0xD0 + nextRestartNum {
        NextSegment();
      }
      var discarded;
      read, discarded := r.ProcessRestart(nextRestartNum);
      if read.Found? {
        BeginSegment(ending.rest);
      } else if read.Waiting? {
        Together();
      }
    }

    /** Reset predictions and the run for the segment that begins at `tail`. */
    method BeginSegment(ghost tail: seq<byte>)
      requires Parameters() && ValidScan(scan) && Readable(scan, tables) && r.Valid() && r.at == 0
      requires nextRestartNum == |segs| % 8 && r.data == Payload(tail) && r.ending == End(tail)
      requires ReadSoFar(scan, tables, segs + [current], done + [blocks], 0, input, tail)
      requires Gave(scan, tables, [], [], NoPred(scan), r.data, 0)
      modifies `saved, `nextRestartNum, `segs, `done, `current, `blocks, `upto, `rest
      ensures InSegment() && Closing() && segs == old(segs) + [old(current)] && current == []
      ensures done == old(done) + [old(blocks)] && blocks == []
    {
      hide *;
      segs, current, done, blocks := segs + [current], [], done + [blocks], [];
      rest, saved, nextRestartNum, upto := tail, NoPred(scan), (nextRestartNum + 1) % 8, 0;
      Together();
    }

    /** Decode one block. */
    method DecodeOne(ci: nat, block: array<int>, ghost base: Zigzag, ghost final: Zigzag) returns (ok: bool)
      requires InSegment() && ci < scan.comps && block.Length == 64 && IsOrder(order)
      requires ValidScan(scan) && Readable(scan, tables) && |saved.last| == scan.comps
      requires final == ParseBlock(scan, tables, saved, Slot(ci, base), Unpack(r.data), r.at).0
      requires Touched(scan.mode == AcRefine, Held(order, block), base, final)
      requires IsJcoef(Held(order, block)) && IsJcoef(base)
      modifies r, `saved, `current, `blocks, `upto, block
      ensures SameSegment(r) && (if ok then Supplied(r) else r.Stopped()) && IsJcoef(Held(order, block))
      ensures !ok ==> Touched(scan.mode == AcRefine, Held(order, block), base, final)
      ensures ok ==> && InSegment() && current == old(current) + [Slot(ci, base)]
                     && blocks == old(blocks) + [final] && Held(order, block) == final
                     && |saved.last| == scan.comps
      ensures ok ==>
                var (_, next, q) := ParseBlock(scan, tables, old(saved), Slot(ci, base), Unpack(r.data), old(r.at));
                saved == next && r.at == q
      ensures !ok ==> saved == old(saved) && current == old(current) && blocks == old(blocks) && upto == old(upto)
    {
      hide *;
      CodedIn();
      TablesAt(scan, tables, derived, ci);
      GaveNext(scan, tables, current, blocks, saved, r.data, r.at, Slot(ci, base));
      TouchedSame(scan, tables, saved, ci, Held(order, block), base, Unpack(r.data), r.at);
      var next;
      ok, next := DecodeByMode(r, scan, tables, derived[ci], order, saved, ci, block, tables[ci]);
      StillSame(r);
      if ok {
        saved, current, blocks, upto := next, current + [Slot(ci, base)], blocks + [final], r.at;
        CodedAgain();
      } else {
        TouchedChain(scan.mode == AcRefine, Held(order, block), old(Held(order, block)), base, final);
      }
    }

    lemma CodedIn()
      requires InSegment()
      ensures Coded() && Parameters() && ValidScan(scan) && Readable(scan, tables) && IsOrder(order) && r.Valid()
      ensures DecoderTables(scan, tables, derived) && r.at == upto && |saved.last| == scan.comps
      ensures Gave(scan, tables, current, blocks, saved, r.data, r.at)
    {
      SavedSize();
    }

    /** What decoding the blocks will give. */
    lemma BlocksStart(data: seq<array<int>>, bases: seq<Zigzag>)
      requires InSegment() && |data| == |membership| == |bases| && Blocks(data) && IsOrder(order)
      requires Startable(scan, bases, Finals(bases, r.at), AllHeld(order, data))
      requires AllJcoef(bases) && AllJcoef(AllHeld(order, data))
      ensures ValidSlots(scan, McuSlots(membership, bases)) && (IsAc(scan.mode) ==> |membership| == 1)
      ensures |saved.last| == scan.comps && forall k :: 0 <= k < |membership| ==> membership[k] < scan.comps
      ensures ParseSegment(scan, tables, saved, McuSlots(membership, bases), Unpack(r.data), r.at).0
           == Finals(bases, r.at)
      ensures Halfway(scan, bases, Finals(bases, r.at), AllHeld(order, data), 0)
    {
      hide ParseSegment, Held, Unpack, Touched, IsOrder, Readable, IsJcoef, BitReader.Valid;
      SavedSize();
      SlotsValid(bases);
    }

    lemma HeldIs(data: seq<array<int>>, held: seq<Zigzag>)
      requires Blocks(data) && IsOrder(order) && |held| == |data|
      ensures AllHeld(order, data) == held <==> forall k :: 0 <= k < |data| ==> Held(order, data[k]) == held[k]
    {
      hide Held, IsOrder;
    }

    /** Decode the blocks of an MCU. */
    method DecodeBlocks(data: seq<array<int>>, ghost bases: seq<Zigzag>) returns (ok: bool)
      requires InSegment() && |data| == |membership| == |bases| && Blocks(data) && IsOrder(order)
      requires Startable(scan, bases, Finals(bases, r.at), AllHeld(order, data))
      requires AllJcoef(bases) && AllJcoef(AllHeld(order, data))
      modifies r, `saved, `current, `blocks, `upto, data
      ensures SameSegment(r) && (if ok then Supplied(r) else r.Stopped()) && AllJcoef(AllHeld(order, data))
      ensures !ok ==> Startable(scan, bases, old(Finals(bases, r.at)), AllHeld(order, data))
      ensures ok ==> && InSegment() && current == old(current) + McuSlots(membership, bases)
                     && blocks == old(blocks) + AllHeld(order, data)
                     && AllHeld(order, data) == old(Finals(bases, r.at))
    {
      hide BitReader.Valid, BitReader.Stopped, ScanDecoder.InSegment, ScanDecoder.Coded, ScanDecoder.Finals,
        ParseSegment, ParseBlock, Unpack, Held, IsOrder, Touched, Startable, ValidScan, Blocks, AllHeld, ValidSlots,
        Readable, AllJcoef, IsJcoef, Halfway;
      CodedIn();
      BlocksStart(data, bases);
      BlocksApart(data);
      SameStart(r);
      ghost var final, slots, held := Finals(bases, r.at), McuSlots(membership, bases), AllHeld(order, data);
      HeldIs(data, held);
      assert slots[..0] == [] && final[..0] == [] && slots[0..] == slots && final[0..] == final;
      for i := 0 to |data|
        invariant InSegment() && SameSegment(r) && Supplied(r) && |held| == |data|
        invariant current == old(current) + slots[..i] && blocks == old(blocks) + final[..i]
        invariant |saved.last| == scan.comps && ValidSlots(scan, slots[i..])
        invariant ParseSegment(scan, tables, saved, slots[i..], Unpack(r.data), r.at).0 == final[i..]
        invariant forall k :: 0 <= k < |data| ==> Held(order, data[k]) == held[k]
        invariant Halfway(scan, bases, final, held, i)
      {
        assert slots[..i + 1] == slots[..i] + [slots[i]] && slots[i] == Slot(membership[i], bases[i]);
        assert final[..i + 1] == final[..i] + [final[i]];
        StepMcu(scan, tables, saved, slots, i, final, Unpack(r.data), r.at);
        HalfwayAt(scan, bases, final, held, i);
        ok := DecodeOne(membership[i], data[i], bases[i], final[i]);
        ghost var now := Held(order, data[i]);
        HalfwayNext(scan, bases, final, held, i, now, ok);
        held := held[i := now];
        if !ok {
          HeldIs(data, held);
          return;
        }
      }
      assert slots[..|data|] == slots && final[..|data|] == final;
      HeldIs(data, held);
      HalfwayEnd(scan, bases, final, held);
      ok := true;
    }

    lemma FinalsIs(bases: seq<Zigzag>)
      requires Coded() && |bases| == |membership|
      ensures |saved.last| == scan.comps && ValidSlots(scan, McuSlots(membership, bases))
      ensures Finals(bases, upto)
           == ParseSegment(scan, tables, saved, McuSlots(membership, bases), Unpack(r.data), upto).0
    {
      hide ParseSegment, Unpack, BitReader.Valid, Readable;
      SavedSize();
      SlotsValid(bases);
    }

    lemma MayHoldMeans(data: seq<array<int>>, bases: seq<Zigzag>)
      requires Coded() && Blocks(data) && |data| == |membership| == |bases| && IsOrder(order)
      ensures RestartDue() <==> 0 < restartInterval && restartsToGo == 0
      ensures RestartDue() ==> (MayHold(data, bases) <==> AllHeld(order, data) == bases)
      ensures !RestartDue() ==>
                (MayHold(data, bases) <==> Startable(scan, bases, Finals(bases, upto), AllHeld(order, data)))
    {
      hide Startable, Finals, Held, ParseSegment, Unpack, Gave, Readable, BitReader.Valid;
    }

    /** All blocks of the MCU, or back to the state before it. */
    method TryBlocks(data: seq<array<int>>, ghost bases: seq<Zigzag>) returns (ok: bool)
      requires InSegment() && Coded() && |data| == |membership| == |bases| && Blocks(data) && IsOrder(order)
      requires Startable(scan, bases, Finals(bases, upto), AllHeld(order, data))
      requires AllJcoef(bases) && AllJcoef(AllHeld(order, data))
      modifies r, `saved, `current, `blocks, `upto, data
      ensures r.data == old(r.data) && r.ending == old(r.ending) && r.src == old(r.src)
      ensures r.supplied == old(r.supplied) && InSegment() && Coded() && AllJcoef(AllHeld(order, data))
      ensures ok ==> && current == old(current) + McuSlots(membership, bases)
                     && blocks == old(blocks) + AllHeld(order, data)
      ensures !ok ==> current == old(current) && blocks == old(blocks) && r.Starved()
      ensures old(Enough()) ==> Enough()
      ensures !ok ==> Startable(scan, bases, Finals(bases, upto), AllHeld(order, data))
    {
      hide *;
      CodedIn();
      CodedMeans();
      FinalsIs(bases);
      var last := saved;
      var buffer, left, pos := r.buffer, r.left, r.pos;
      ghost var was := (current, blocks, upto);
      EnoughIs();
      ok := DecodeBlocks(data, bases);
      StillSame(r);
      SuppliedMeans(r);
      if !ok {
        GoBack(r);
        r.Restore(buffer, left, pos, was.2);
        saved, current, blocks, upto := last, was.0, was.1, was.2;
        CodedAgain();
        FinalsIs(bases);
      } else {
        CodedIn();
      }
      EnoughIs();
    }

    lemma EnoughIs()
      ensures Enough() <==> (r.insufficient ==> 8 * |r.data| < upto)
    {
    }

    /** The MCU after the restart marker. */
    method AttemptMcu(data: seq<array<int>>, ghost bases: seq<Zigzag>) returns (res: McuResult)
      requires InSegment() && Closing() && |data| == |membership| == |bases| && Blocks(data) && IsOrder(order)
      requires Coded() && Enough() && Startable(scan, bases, Finals(bases, upto), AllHeld(order, data))
      requires AllJcoef(bases) && AllJcoef(AllHeld(order, data))
      requires Ready(mcus, segs, current, restartInterval, restartsToGo)
      requires restartInterval == 0 || 0 < restartsToGo
      modifies r, `saved, `current, `blocks, `upto, `restartsToGo, `mcus, data
      ensures r.src == old(r.src) && r.supplied == old(r.supplied) && AllJcoef(AllHeld(order, data))
      ensures res.Decoded? || res.Suspended?
      ensures res.Decoded? ==>
                && Valid() && mcus == old(mcus) + [McuSlots(membership, bases)]
                && Grouped(mcus, segs, current, restartInterval, restartsToGo)
                && blocks == old(blocks) + AllHeld(order, data)
      ensures res.Suspended? ==>
                && Valid() && Coded() && MayHold(data, bases) && r.Starved() && mcus == old(mcus)
                && blocks == old(blocks)
    {
      hide *;
      Apart();
      ghost var mcu := McuSlots(membership, bases);
      ReadyNext(mcus, segs, current, restartInterval, restartsToGo, mcu);
      var ok := TryBlocks(data, bases);
      Close();
      if ok {
        restartsToGo := if restartInterval != 0 then restartsToGo - 1 else 0;
        mcus := mcus + [mcu];
      }
      Whole();
      MayHoldMeans(data, bases);
      res := if ok then Decoded else Suspended;
    }

    /** The scan has all it needs, when after the MCUs so far come `mcu` and then `later`. */
    ghost predicate Completes(mcu: seq<Slot>, later: seq<seq<Slot>>)
      reads `mcus
    {
      var all := Segments(mcus + [mcu] + later, restartInterval);
      ValidScan(scan) && Readable(scan, tables) && AllValid(scan, all) && Ample(scan, tables, all, 0, input)
    }

    /** In a scan that has all it needs, the restart marker that is due comes next. */
    lemma BeforeRestart(mcu: seq<Slot>, later: seq<seq<Slot>>)
      requires Coded() && Closing() && Ready(mcus, segs, current, restartInterval, 0) && 0 < restartInterval
      requires Completes(mcu, later)
      ensures r.ending.At? && r.ending.code == 0xD0 + nextRestartNum
    {
      hide ReadSoFar, Ample, Segments, AllValid, Prolongs, LastCount, Readable, DecoderTables, BitReader.Valid,
        ParseSegment;
      var all := Segments(mcus + [mcu] + later, restartInterval);
      GroupedNext(mcus, segs, current, restartInterval, 0, mcu);
      SegmentsProlong(mcus, [mcu] + later, restartInterval);
      assert mcus + ([mcu] + later) == mcus + [mcu] + later;
      SegmentsProlong(mcus + [mcu], later, restartInterval);
      ProlongsSize(Segments(mcus + [mcu], restartInterval), all);
      OnTrack(scan, tables, segs, done, input, rest, current, all);
    }

    /** In such a scan there is data for the MCU. */
    lemma BeforeBlocks(mcu: seq<Slot>, later: seq<seq<Slot>>)
      requires Coded() && Closing() && Enough() && Ready(mcus, segs, current, restartInterval, restartsToGo)
      requires restartInterval == 0 || 0 < restartsToGo
      requires Completes(mcu, later) && ValidSlots(scan, mcu)
      ensures !r.insufficient && r.ending.At?
    {
      hide ReadSoFar, Ample, Segments, AllValid, Prolongs, LastCount, Readable, DecoderTables, BitReader.Valid,
        ParseSegment, Ready, Unpack, Payload, End;
      ReadyNext(mcus, segs, current, restartInterval, restartsToGo, mcu);
      SegmentsProlong(mcus + [mcu], later, restartInterval);
      OnTrack(scan, tables, segs, done, input, rest, current + mcu, Segments(mcus + [mcu] + later, restartInterval));
      SegmentPrefix(scan, tables, NoPred(scan), current, mcu, Unpack(r.data), 0);
    }

    lemma AfterBlank()
      requires Ready(mcus, segs, current, restartInterval, restartsToGo) && (restartInterval == 0 || 0 < restartsToGo)
      ensures Ready(mcus + [[]], segs, current, restartInterval, if restartInterval == 0 then 0 else restartsToGo - 1)
    {
      hide Ready;
      ReadyNext(mcus, segs, current, restartInterval, restartsToGo, []);
      assert current + [] == current;
    }

    /** The MCU is only counted: it adds no blocks. */
    method LeaveBlank()
      requires Coded() && Closing() && Enough() && InSegment()
      requires Ready(mcus, segs, current, restartInterval, restartsToGo) && (restartInterval == 0 || 0 < restartsToGo)
      modifies `mcus, `restartsToGo
      ensures Valid() && mcus == old(mcus) + [[]]
    {
      hide *;
      AfterBlank();
      restartsToGo := if restartInterval != 0 then restartsToGo - 1 else 0;
      mcus := mcus + [[]];
      Whole();
    }

    /** One MCU, after the restart marker when the interval is used up.  When more input
        is needed, the arrays need not be restored for the next attempt, which gives
        what an undisturbed one would have given.  An MCU is left blank only after the
        segment has ended too soon. */
    method DecodeMcu(data: seq<array<int>>, ghost bases: seq<Zigzag>, ghost later: seq<seq<Slot>>)
      returns (res: McuResult)
      requires Valid() && |data| == |membership| == |bases| && Blocks(data) && IsOrder(order) && Coded()
      requires MayHold(data, bases) && AllJcoef(bases) && AllJcoef(AllHeld(order, data))
      modifies this, r, data
      ensures r.src == old(r.src) && r.supplied == old(r.supplied)
      ensures res.Decoded? ==>
                && Valid() && mcus == old(mcus) + [McuSlots(membership, bases)]
                && Grouped(mcus, segs, current, restartInterval, restartsToGo)
                && Concat(done) + blocks == old(Concat(done) + blocks) + AllHeld(order, data)
      ensures res.Suspended? ==>
                && Valid() && Coded() && MayHold(data, bases) && r.Starved() && mcus == old(mcus)
                && Concat(done) + blocks == old(Concat(done) + blocks)
      ensures res.NoRestart? ==>
                && restartInterval != 0 && old(restartsToGo) == 0 && old(r.ending).At?
                && old(r.ending).code != 0xD0 + old(nextRestartNum)
      ensures res.Blank? ==>
                && Valid() && mcus == old(mcus) + [[]] && 8 * |r.data| < upto && r.insufficient
                && done == old(done) && blocks == old(blocks) && AllHeld(order, data) == old(AllHeld(order, data))
      ensures old(Completes(McuSlots(membership, bases), later)) ==> res.Decoded? || res.Suspended?
      ensures AllJcoef(AllHeld(order, data))
    {
      hide *;
      Parts();
      Apart();
      MayHoldMeans(data, bases);
      ConcatSnoc(done, blocks);
      ghost var mcu := McuSlots(membership, bases);
      ghost var on := Completes(mcu, later);
      EnoughIs();
      SlotsValid(bases);
      if restartInterval != 0 && restartsToGo == 0 {
        if on {
          BeforeRestart(mcu, later);
        }
        var read := ProcessRestart();
        if read.Unexpected? {
          return NoRestart;
        }
        if read.Waiting? {
          Whole();
          MayHoldMeans(data, bases);
          return Suspended;
        }
        EnoughIs();
        restartsToGo := restartInterval;
        ReadyRestart(mcus, old(segs), old(current), restartInterval);
        CodedIn();
        Untouched(scan, bases, Finals(bases, upto));
      }
      MayHoldMeans(data, bases);
      if on {
        BeforeBlocks(mcu, later);
      }
      if r.insufficient && scan.mode != DcRefine {
        EnoughIs();
        LeaveBlank();
        return Blank;
      }
      res := AttemptMcu(data, bases);
    }

    /** More input arrives between two calls. */
    method Supply(more: nat, data: seq<array<int>>, ghost bases: seq<Zigzag>)
      requires Valid() && Coded() && |data| == |membership| == |bases| && Blocks(data) && IsOrder(order)
      requires MayHold(data, bases) && r.supplied + more <= |r.src|
      modifies r`supplied
      ensures Valid() && Coded() && MayHold(data, bases) && r.supplied == old(r.supplied) + more
    {
      hide *;
      Parts();
      Apart();
      CodedMeans();
      FinalsIs(bases);
      MayHoldMeans(data, bases);
      ghost var within := r.at == upto;
      ReadyInside();
      r.Supply(more);
      Together();
      ReadyInside();
      Whole();
      FinalsIs(bases);
      MayHoldMeans(data, bases);
    }

    lemma ReadyInside()
      requires Coded()
      ensures InSegment() <==> r.at == upto
    {
    }

    /** In a scan that has all it needs, what follows the segment is there. */
    lemma MarkerThere(mcu: seq<Slot>, later: seq<seq<Slot>>)
      requires Valid() && Completes(mcu, later) && ValidSlots(scan, mcu)
      ensures r.ending.At?
    {
      hide ReadSoFar, Ample, Segments, AllValid, Prolongs, LastCount, Readable, DecoderTables, BitReader.Valid,
        ParseSegment, Ready, Unpack, Payload, End, ScanDecoder.Completes, ScanDecoder.Coded, ScanDecoder.Closing;
      if restartInterval != 0 && restartsToGo == 0 {
        BeforeRestart(mcu, later);
      } else {
        BeforeBlocks(mcu, later);
      }
    }

    /** In a scan that had all it needed, a marker follows. */
    lemma MarkerAtEnd()
      requires Valid() && Grouped(mcus, segs, current, restartInterval, restartsToGo)
      requires ValidScan(scan) && Readable(scan, tables) && AllValid(scan, Segments(mcus, restartInterval))
      requires Ample(scan, tables, Segments(mcus, restartInterval), 0, input)
      ensures r.ending.At?
    {
      hide ReadSoFar, Segments, ParseSegment, Unpack, End, Payload, BitReader.Valid, Readable, AllValid, NoPred, Ample,
        Prolongs;
      ProlongsSelf(segs + [current]);
      OnTrack(scan, tables, segs, done, input, rest, current, Segments(mcus, restartInterval));
    }

    /** After the last MCU: decoding MCU by MCU, however often suspended, is
        decoding the scan. */
    lemma ScanResult()
      requires Valid() && Grouped(mcus, segs, current, restartInterval, restartsToGo) && r.ending.At?
      ensures ValidScan(scan) && Readable(scan, tables) && AllValid(scan, Segments(mcus, restartInterval))
      ensures ParseScan(scan, tables, Segments(mcus, restartInterval), 0, input)
           == Complete(done + [blocks], r.ending)
    {
      hide ParseSegment, Payload, End, Unpack, ParseScan, Segments, ReadSoFar, BitReader.Valid, NoPred, Readable;
      ScanRead(scan, tables, segs, done, 0, input, rest, current);
    }
  }
}
