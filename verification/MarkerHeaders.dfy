/** The frame and scan headers read back: what the marker writer writes, and when it leaves
    out tables it wrote before, gives the reader everything the scan needs. */
module MarkerHeaders {
  import opened Bytes
  import opened HuffmanCode
  import opened ArithScan
  import opened MarkerFormat
  import opened MarkerRoundTrip
  import opened MarkerWriting
  import opened MarkerReading

  /** A reader that has seen the start of the file. */
  predicate Ready(d: Known)
  {
    d.sawSoi && LegalCond(d.cond)
  }

  /** A segment next in the input goes to its routine. */
  lemma SegmentNext(src: seq<byte>, p: nat, m: byte, body: seq<byte>, d: Known, o: Orders)
    requires Has(src, p, Segment(m, body)) && 0 < m < 255 && Ready(d) && LegalOrders(o)
    ensures p + |body| + 4 <= |src| && Has(src, p + 2, Two(|body| + 2) + body)
    ensures var step := OneMarker(src, p + 2, m, d, o);
            ReadFrom(src, p, 0, d, o) == if step.Go? then ReadFrom(src, step.next, 0, step.d, o) else step
  {
    hide Has, OneMarker, Two, ReadFrom;
    var all := [255, m] + (Two(|body| + 2) + body);
    assert Segment(m, body) == all;
    HasSize(src, p, all);
    HasSplit(src, p, [255, m], Two(|body| + 2) + body);
    HasPair(src, p, 255, m);
    MarkerAt(src, p, m);
    NextStep(src, p, m, d, o);
  }

  lemma MarkerAt(src: seq<byte>, p: nat, m: byte)
    requires p + 2 <= |src| && src[p] == 255 && src[p + 1] == m && 0 < m < 255
    ensures End(src[p..]) == At(m, src[p + 2..])
  {
    var s := src[p..];
    assert s[0] == 255 && s[1] == m;
    assert s[2..] == src[p + 2..];
  }

  lemma NextStep(src: seq<byte>, p: nat, m: byte, d: Known, o: Orders)
    requires p + 2 <= |src| && End(src[p..]) == At(m, src[p + 2..]) && Ready(d) && LegalOrders(o)
    ensures var step := OneMarker(src, p + 2, m, d, o);
            ReadFrom(src, p, 0, d, o) == if step.Go? then ReadFrom(src, step.next, 0, step.d, o) else step
  {
    hide OneMarker, End;
  }

  // ------------------------------------------------------------------ what they share

  /** The reader has every quantization table that was written. */
  ghost predicate QuantAgrees(c: Settings, q: map<nat, QuantSlot>, r: map<nat, seq<nat>>)
    requires LegalSettings(c)
  {
    forall k :: k in q && q[k].sent ==> k in r && QuantSame(c, q[k].vals, r[k])
  }

  /** Wherever blocks have coefficients. */
  ghost predicate QuantSame(c: Settings, vals: seq<nat>, r: seq<nat>)
    requires LegalSettings(c)
  {
    var n := LimSe(c.blockSize) + 1;
    SameQuant(r, vals, OrderOf(c.orders, n), n)
  }

  ghost predicate HuffAgrees(h: map<nat, HuffSlot>, r: map<nat, Table>)
  {
    forall k :: k in h && h[k].sent ==> k in r && r[k] == h[k].table
  }

  /** A DQT segment, if there is one. */
  lemma DqtNext(src: seq<byte>, p: nat, c: Settings, index: nat, slot: QuantSlot, d: Known)
    returns (quant: map<nat, seq<nat>>)
    requires LegalSettings(c) && LegalQuantSlot(slot) && index < 4 && Ready(d)
    requires Has(src, p, DqtSegment(c, index, slot))
    ensures p + |DqtSegment(c, index, slot)| <= |src|
    ensures ReadFrom(src, p, 0, d, c.orders)
         == ReadFrom(src, p + |DqtSegment(c, index, slot)|, 0, d.(quant := quant), c.orders)
    ensures if slot.sent then quant == d.quant else
              && quant.Keys == d.quant.Keys + {index} && QuantSame(c, slot.vals, quant[index])
              && forall k :: k in d.quant && k != index ==> quant[k] == d.quant[k]
  {
    hide Has, LegalSettings, Segment, DqtBody, ReadFrom, ParseDqt, Written, SameQuant, OrderOf, Zigzagged, LegalOrders;
    HasSize(src, p, DqtSegment(c, index, slot));
    SettingsOrders(c);
    if slot.sent {
      quant := d.quant;
    } else {
      var n := LimSe(c.blockSize) + 1;
      var body := DqtBody(index, Written(c, slot.vals));
      SegmentNext(src, p, DQT, body, d, c.orders);
      WrittenIs(c, slot.vals);
      DqtRead(src, p + 2, index, slot.vals, n, d.quant, c.orders);
      quant := ParseDqt(src, p + 2, d.quant, c.orders).value;
    }
  }

  lemma WrittenIs(c: Settings, vals: seq<nat>)
    requires LegalSettings(c) && |vals| == 64
    ensures Written(c, vals) == Zigzagged(vals, OrderOf(c.orders, LimSe(c.blockSize) + 1), LimSe(c.blockSize) + 1)
  {
  }

  lemma QuantAgreesNext(c: Settings, q: map<nat, QuantSlot>, r: map<nat, seq<nat>>, next: map<nat, seq<nat>>,
                        index: nat)
    requires LegalSettings(c) && QuantAgrees(c, q, r) && index in q
    requires if q[index].sent then next == r else
               && next.Keys == r.Keys + {index} && QuantSame(c, q[index].vals, next[index])
               && forall k :: k in r && k != index ==> next[k] == r[k]
    ensures QuantAgrees(c, q[index := q[index].(sent := true)], next)
  {
    hide LegalSettings, QuantSame;
  }

  /** The tables of the first `n` components. */
  lemma {:induction false} DqtsRead(src: seq<byte>, p: nat, c: Settings, q: map<nat, QuantSlot>, n: nat, d: Known)
    returns (quant: map<nat, seq<nat>>)
    requires LegalSettings(c) && LegalQuant(q) && HaveQuant(c, q) && n <= |c.frame.comps| && Ready(d)
    requires QuantAgrees(c, q, d.quant) && Has(src, p, DqtBytes(c, q, n))
    ensures p + |DqtBytes(c, q, n)| <= |src| && QuantAgrees(c, AfterDqts(c, q, n), quant)
    ensures ReadFrom(src, p, 0, d, c.orders)
         == ReadFrom(src, p + |DqtBytes(c, q, n)|, 0, d.(quant := quant), c.orders)
    decreases n
  {
    hide Has, LegalSettings, LegalQuant, ReadFrom, DqtSegment, QuantSame, QuantAgrees, LegalQuantSlot, DqtBytes,
      AfterDqts;
    HasSize(src, p, DqtBytes(c, q, n));
    SettingsOrders(c);
    if n == 0 {
      NoneWritten(c, q);
      quant := d.quant;
    } else {
      NextDqt(c, q, n - 1);
      var slots, tq := AfterDqts(c, q, n - 1), c.frame.comps[n - 1].tq;
      HasSplit(src, p, DqtBytes(c, q, n - 1), DqtSegment(c, tq, slots[tq]));
      var front := DqtsRead(src, p, c, q, n - 1, d);
      SettingsTq(c, n - 1);
      SlotLegal(c, q, n - 1);
      quant := DqtNext(src, p + |DqtBytes(c, q, n - 1)|, c, tq, slots[tq], d.(quant := front));
      QuantAgreesNext(c, slots, front, quant, tq);
    }
  }

  lemma NoneWritten(c: Settings, q: map<nat, QuantSlot>)
    requires LegalSettings(c) && LegalQuant(q) && HaveQuant(c, q)
    ensures DqtBytes(c, q, 0) == [] && AfterDqts(c, q, 0) == q
  {
  }

  lemma SlotLegal(c: Settings, q: map<nat, QuantSlot>, n: nat)
    requires LegalSettings(c) && LegalQuant(q) && HaveQuant(c, q) && n < |c.frame.comps|
    ensures LegalQuantSlot(AfterDqts(c, q, n)[c.frame.comps[n].tq])
  {
    assert LegalQuantSlot(q[c.frame.comps[n].tq]);
  }

  // ------------------------------------------------------------------ the frame header

  /** What the reader knows after the SOF segment. */
  function WithFrame(c: Settings, q: map<nat, QuantSlot>, d: Known, quant: map<nat, seq<nat>>): Known
    requires LegalSettings(c) && LegalQuant(q) && HaveQuant(c, q)
  {
    d.(quant := quant, sawSof := true, baseline := SofCode(c, q) == SOF0, progressive := c.progressive,
       arith := c.arith, frame := c.frame.(comps := Plain(c.frame.comps)))
  }

  lemma SofNext(src: seq<byte>, p: nat, c: Settings, q: map<nat, QuantSlot>, d: Known)
    requires LegalSettings(c) && LegalQuant(q) && HaveQuant(c, q) && Ready(d) && !d.sawSof
    requires c.frame.height < 65536 && c.frame.width < 65536
    requires Has(src, p, Segment(SofCode(c, q), SofBody(c.frame)))
    ensures p + |Segment(SofCode(c, q), SofBody(c.frame))| <= |src|
    ensures ReadFrom(src, p, 0, d, c.orders)
         == ReadFrom(src, p + |Segment(SofCode(c, q), SofBody(c.frame))|, 0, WithFrame(c, q, d, d.quant), c.orders)
  {
    hide Has, LegalSettings, LegalQuant, Segment, SofBody, ReadFrom, ParseSof, LegalOrders, AnyWide, FewTables;
    HasSize(src, p, Segment(SofCode(c, q), SofBody(c.frame)));
    SettingsOrders(c);
    FrameLegal(c);
    var code := SofCode(c, q);
    SegmentNext(src, p, code, SofBody(c.frame), d, c.orders);
    SofRead(src, p + 2, c.frame);
  }

  lemma FrameLegal(c: Settings)
    requires LegalSettings(c) && c.frame.height < 65536 && c.frame.width < 65536
    ensures LegalFrame(c.frame)
  {
  }

  lemma PseudoNext(src: seq<byte>, p: nat, c: Settings, d: Known)
    requires LegalSettings(c) && Ready(d) && d.sawSof && d.progressive && c.progressive && c.blockSize != 8
    requires Has(src, p, PseudoSos(c))
    ensures p + |PseudoSos(c)| <= |src|
    ensures ReadFrom(src, p, 0, d, c.orders)
         == Halt(AtSos, d.(scan := ScanInfo([], 0, c.blockSize * c.blockSize - 1, 0, 0)), p + |PseudoSos(c)|, 0)
  {
    hide Has, LegalSettings, ReadFrom, ParseSos, LegalOrders, Two;
    SettingsOrders(c);
    var size := c.blockSize * c.blockSize - 1;
    SmallSquare(c.blockSize);
    var body := [0, 0, ToByte(size), 0];
    HasSize(src, p, PseudoSos(c));
    SegmentNext(src, p, SOS, body, d, c.orders);
    EmptySos(src, p + 2, size, d.frame.comps);
  }

  lemma SmallSquare(n: nat)
    requires 1 <= n <= 16
    ensures 0 <= n * n - 1 < 256
  {
    assert n * n <= 16 * n;
  }

  lemma EmptySos(src: seq<byte>, p: nat, se: nat, comps: seq<Component>)
    requires se < 256 && Has(src, p, Two(6) + [0, 0, ToByte(se), 0])
    ensures ParseSos(src, p, true, comps) == Done((comps, ScanInfo([], 0, se, 0, 0)), p + 6)
  {
    hide Has, Two, Word;
    HasSplit(src, p, Two(6), [0, 0, ToByte(se), 0]);
    HasTwo(src, p, 6);
    HasSize(src, p + 2, [0, 0, ToByte(se), 0]);
    HasAt(src, p + 2, [0, 0, ToByte(se), 0], 0);
    HasAt(src, p + 2, [0, 0, ToByte(se), 0], 1);
    HasAt(src, p + 2, [0, 0, ToByte(se), 0], 2);
    HasAt(src, p + 2, [0, 0, ToByte(se), 0], 3);
    NoSosComps(src, p + 3, comps, []);
  }

  /** The LSE segment, if there is one. */
  lemma LseNext(src: seq<byte>, p: nat, c: Settings, d: Known)
    requires LegalSettings(c) && Transformable(c) && Ready(d) && d.sawSof && Ids(d.frame.comps) == Ids(c.frame.comps)
    requires Has(src, p, LseSegment(c))
    ensures p + |LseSegment(c)| <= |src|
    ensures ReadFrom(src, p, 0, d, c.orders)
         == ReadFrom(src, p + |LseSegment(c)|, 0, d.(subtractGreen := d.subtractGreen || c.transform != 0), c.orders)
  {
    hide Has, ReadFrom, ParseLse, LegalOrders, Two, FieldBytes, LseFields, Segment, Ids;
    HasSize(src, p, LseSegment(c));
    SettingsOrders(c);
    if c.transform != 0 {
      var ids := Ids(c.frame.comps);
      IdsFit(c);
      SegmentNext(src, p, LSE, FieldBytes(LseFields(ids)), d, c.orders);
      LseRead(src, p + 2, ids);
    } else {
      assert d.(subtractGreen := d.subtractGreen || c.transform != 0) == d;
    }
  }

  lemma IdsFit(c: Settings)
    requires LegalSettings(c)
    ensures |Ids(c.frame.comps)| == |c.frame.comps|
    ensures forall i :: 0 <= i < |c.frame.comps| ==> Ids(c.frame.comps)[i] < 256
  {
  }

  /** Every component's table is marked as written. */
  lemma {:induction false} AllSent(c: Settings, q: map<nat, QuantSlot>, n: nat, i: nat)
    requires HaveQuant(c, q) && i < n <= |c.frame.comps|
    ensures AfterDqts(c, q, n)[c.frame.comps[i].tq].sent
  {
    if i < n - 1 {
      AllSent(c, q, n - 1, i);
    }
  }

  /** The frame header read back: the frame, and the quantization table of every component,
      also if it was written before. */
  lemma FrameHeaderRead(src: seq<byte>, p: nat, c: Settings, q: map<nat, QuantSlot>, d: Known) returns (after: Known)
    requires LegalSettings(c) && LegalQuant(q) && HaveQuant(c, q) && Ready(d) && !d.sawSof
    requires c.frame.height < 65536 && c.frame.width < 65536 && Transformable(c)
    requires QuantAgrees(c, q, d.quant) && Has(src, p, FrameHeader(c, q))
    ensures after.subtractGreen == (d.subtractGreen || c.transform != 0)
    ensures Ready(after) && after.sawSof && after.progressive == c.progressive && after.arith == c.arith
    ensures var end := p + |FrameHeader(c, q)|;
            && end <= |src|
            && ReadFrom(src, p, 0, d, c.orders) ==
               if c.progressive && c.blockSize != 8 then Halt(AtSos, after, end, 0)
               else ReadFrom(src, end, 0, after, c.orders)
    ensures after.frame == c.frame.(comps := Plain(c.frame.comps))
    ensures after.huff == d.huff && after.cond == d.cond && after.restart == d.restart
    ensures QuantAgrees(c, AfterDqts(c, q, |c.frame.comps|), after.quant)
    ensures forall i :: 0 <= i < |c.frame.comps| ==>
              var tq := c.frame.comps[i].tq; tq in after.quant && QuantSame(c, q[tq].vals, after.quant[tq])
  {
    hide Has, LegalSettings, LegalQuant, ReadFrom, DqtBytes, SofBody, Segment, SofCode, AfterDqts, QuantAgrees,
      QuantSame, PseudoSos, LseSegment, Transformable;
    var n, tail := |c.frame.comps|, PseudoSos(c);
    var sof, lse := Segment(SofCode(c, q), SofBody(c.frame)), LseSegment(c);
    HasSize(src, p, FrameHeader(c, q));
    HasSplit(src, p, DqtBytes(c, q, n) + sof + lse, tail);
    HasSplit(src, p, DqtBytes(c, q, n) + sof, lse);
    HasSplit(src, p, DqtBytes(c, q, n), sof);
    var quant := DqtsRead(src, p, c, q, n, d);
    var now := d.(quant := quant);
    var at := p + |DqtBytes(c, q, n)|;
    SofNext(src, at, c, q, now);
    after := WithFrame(c, q, now, now.quant);
    PlainIds(c.frame.comps);
    LseNext(src, at + |sof|, c, after);
    after := after.(subtractGreen := after.subtractGreen || c.transform != 0);
    if c.progressive && c.blockSize != 8 {
      PseudoNext(src, at + |sof| + |lse|, c, after);
      after := after.(scan := ScanInfo([], 0, c.blockSize * c.blockSize - 1, 0, 0));
    } else {
      NoPseudo(c, []);
    }
    forall i | 0 <= i < n
      ensures var tq := c.frame.comps[i].tq; tq in after.quant && QuantSame(c, q[tq].vals, after.quant[tq])
    {
      AllSent(c, q, n, i);
      AgreesAt(c, AfterDqts(c, q, n), after.quant, c.frame.comps[i].tq);
    }
  }

  lemma AgreesAt(c: Settings, q: map<nat, QuantSlot>, r: map<nat, seq<nat>>, k: nat)
    requires LegalSettings(c) && QuantAgrees(c, q, r) && k in q && q[k].sent
    ensures k in r && QuantSame(c, q[k].vals, r[k])
  {
  }

  // ------------------------------------------------------------------- the scan header

  /** The reader's tables after a slot was written, if it was not before. */
  function HuffWith(h: HuffTables, index: nat, ac: bool, slot: HuffSlot): HuffTables
  {
    if slot.sent then h
    else if ac then h.(ac := h.ac[index := slot.table])
    else h.(dc := h.dc[index := slot.table])
  }

  /** A DHT segment, if there is one. */
  lemma DhtNext(src: seq<byte>, p: nat, index: nat, ac: bool, slot: HuffSlot, d: Known, o: Orders)
    requires LegalTable(slot.table) && index < 4 && Ready(d) && LegalOrders(o)
    requires Has(src, p, DhtSegment(index, ac, slot))
    ensures p + |DhtSegment(index, ac, slot)| <= |src|
    ensures ReadFrom(src, p, 0, d, o)
         == ReadFrom(src, p + |DhtSegment(index, ac, slot)|, 0, d.(huff := HuffWith(d.huff, index, ac, slot)), o)
  {
    hide Has, LegalTable, ReadFrom, ParseDht, Segment, DhtBody, LegalOrders;
    HasSize(src, p, DhtSegment(index, ac, slot));
    if !slot.sent {
      TableSizes(slot.table);
      SegmentNext(src, p, DHT, DhtBody(index, ac, slot.table), d, o);
      DhtRead(src, p + 2, index, ac, slot.table, d.huff);
    }
  }

  ghost predicate HuffsAgree(h: Huffs, r: HuffTables)
  {
    HuffAgrees(h.dc, r.dc) && HuffAgrees(h.ac, r.ac)
  }

  lemma HuffAgreesNext(h: Huffs, r: HuffTables, k: nat, ac: bool)
    requires HuffsAgree(h, r) && k in (if ac then h.ac else h.dc)
    ensures HuffsAgree(if ac then Huffs(h.dc, SentIn(h.ac, k)) else Huffs(SentIn(h.dc, k), h.ac),
                       HuffWith(r, k, ac, if ac then h.ac[k] else h.dc[k]))
  {
  }

  /** The tables of one component. */
  lemma CompTablesRead(src: seq<byte>, p: nat, c: Settings, s: ScanInfo, g: Huffs, k: Component, d: Known)
    returns (huff: HuffTables)
    requires LegalSettings(c) && Ready(d) && k.dcTbl < 4 && k.acTbl < 4 && HuffsAgree(g, d.huff)
    requires Writable(s, g, k) && Has(src, p, TablesOf(s, g, k))
    ensures p + |TablesOf(s, g, k)| <= |src| && HuffsAgree(SentFor(s, g, k), huff)
    ensures ReadFrom(src, p, 0, d, c.orders)
         == ReadFrom(src, p + |TablesOf(s, g, k)|, 0, d.(huff := huff), c.orders)
  {
    hide Has, LegalSettings, LegalTable, ReadFrom, DhtSegment, HuffsAgree, SentIn, HuffWith;
    SettingsOrders(c);
    var a := if UsesDc(s) then DhtSegment(k.dcTbl, false, g.dc[k.dcTbl]) else [];
    var b := if UsesAc(s) then DhtSegment(k.acTbl, true, g.ac[k.acTbl]) else [];
    HasSize(src, p, a + b);
    HasSplit(src, p, a, b);
    var h, mid := g, d.huff;
    if UsesDc(s) {
      DhtNext(src, p, k.dcTbl, false, g.dc[k.dcTbl], d, c.orders);
      HuffAgreesNext(g, mid, k.dcTbl, false);
      h, mid := Huffs(SentIn(g.dc, k.dcTbl), g.ac), HuffWith(mid, k.dcTbl, false, g.dc[k.dcTbl]);
    }
    huff := mid;
    if UsesAc(s) {
      DhtNext(src, p + |a|, k.acTbl, true, g.ac[k.acTbl], d.(huff := mid), c.orders);
      HuffAgreesNext(h, mid, k.acTbl, true);
      huff := HuffWith(mid, k.acTbl, true, g.ac[k.acTbl]);
    }
  }

  /** The tables of the scan's first `n` components. */
  lemma {:induction false} DhtsRead(src: seq<byte>, p: nat, c: Settings, s: ScanInfo, h: Huffs, n: nat, d: Known)
    returns (huff: HuffTables)
    requires LegalSettings(c) && !c.arith && ScanOf(c, s) && HaveHuff(c, s, h) && n <= |s.comps| && Ready(d)
    requires LegalHuff(h.dc) && LegalHuff(h.ac) && HuffsAgree(h, d.huff) && Has(src, p, DhtBytes(c, s, h, n))
    ensures p + |DhtBytes(c, s, h, n)| <= |src| && HuffsAgree(AfterDhts(c, s, h, n), huff)
    ensures ReadFrom(src, p, 0, d, c.orders)
         == ReadFrom(src, p + |DhtBytes(c, s, h, n)|, 0, d.(huff := huff), c.orders)
    decreases n
  {
    hide Has, LegalSettings, LegalHuff, ReadFrom, TablesOf, SentFor, Writable, HuffsAgree, DhtBytes, AfterDhts, ScanOf;
    HasSize(src, p, DhtBytes(c, s, h, n));
    if n == 0 {
      NoTables(c, s, h);
      huff := d.huff;
    } else {
      NextDht(c, s, h, n - 1);
      SettingsTables(c, s, n - 1);
      var g, k := AfterDhts(c, s, h, n - 1), c.frame.comps[s.comps[n - 1]];
      HasSplit(src, p, DhtBytes(c, s, h, n - 1), TablesOf(s, g, k));
      var front := DhtsRead(src, p, c, s, h, n - 1, d);
      huff := CompTablesRead(src, p + |DhtBytes(c, s, h, n - 1)|, c, s, g, k, d.(huff := front));
    }
  }

  lemma NoTables(c: Settings, s: ScanInfo, h: Huffs)
    requires ScanOf(c, s) && HaveHuff(c, s, h) && LegalHuff(h.dc) && LegalHuff(h.ac)
    ensures DhtBytes(c, s, h, 0) == [] && AfterDhts(c, s, h, 0) == h
  {
  }

  /** The DAC segment, if there is one. */
  lemma DacNext(src: seq<byte>, p: nat, c: Settings, s: ScanInfo, cond: Conditioning, d: Known)
    returns (r: Conditioning)
    requires LegalSettings(c) && ScanOf(c, s) && LegalValues(cond) && LegalCond(cond) && Ready(d)
    requires forall i :: 0 <= i < |c.frame.comps| ==> c.frame.comps[i].dcTbl < 16 && c.frame.comps[i].acTbl < 16
    requires Has(src, p, DacSegment(c.frame.comps, s, cond))
    ensures p + |DacSegment(c.frame.comps, s, cond)| <= |src| && LegalCond(r)
    ensures ReadFrom(src, p, 0, d, c.orders)
         == ReadFrom(src, p + |DacSegment(c.frame.comps, s, cond)|, 0, d.(cond := r), c.orders)
    ensures CondRead(r, d.cond, cond, DcInUse(c.frame.comps, s, |s.comps|), AcInUse(c.frame.comps, s, |s.comps|), 0)
  {
    hide Has, LegalSettings, LegalValues, ReadFrom, DacBody, Segment, CondRead, DcInUse, AcInUse, ParseDac;
    SettingsOrders(c);
    var dc, ac := DcInUse(c.frame.comps, s, |s.comps|), AcInUse(c.frame.comps, s, |s.comps|);
    var body := DacBody(dc, ac, cond, 0);
    HasSize(src, p, DacSegment(c.frame.comps, s, cond));
    if body == [] {
      NothingInUse(dc, ac, cond, d.cond);
      r := d.cond;
    } else {
      SegmentNext(src, p, DAC, body, d, c.orders);
      DacRead(src, p + 2, dc, ac, cond, d.cond);
      r := ParseDac(src, p + 2, d.cond).value;
    }
  }

  /** Without entries no table is in use. */
  lemma NothingInUse(dc: seq<bool>, ac: seq<bool>, cond: Conditioning, was: Conditioning)
    requires |dc| == |ac| == 16 && LegalCond(cond) && LegalCond(was) && DacBody(dc, ac, cond, 0) == []
    ensures CondRead(was, was, cond, dc, ac, 0)
  {
    BodySize(dc, ac, cond, 0);
    forall i | 0 <= i < 16
      ensures !dc[i] && !ac[i]
    {
      UnusedAt(dc, 0, i);
      UnusedAt(ac, 0, i);
    }
  }

  lemma {:induction false} UnusedAt(inUse: seq<bool>, from: nat, i: nat)
    requires from <= i < |inUse| && Used(inUse, from) == 0
    ensures !inUse[i]
    decreases i - from
  {
    if from < i {
      UnusedAt(inUse, from + 1, i);
    }
  }

  lemma ScanFacts(c: Settings, s: ScanInfo)
    requires LegalScan(c.frame.comps, s)
    ensures 1 <= |s.comps| && forall i :: 0 <= i < |s.comps| ==> s.comps[i] < |c.frame.comps|
  {
  }

  /** The DRI segment, if the interval has changed. */
  lemma DriNext(src: seq<byte>, p: nat, restart: nat, last: nat, d: Known, o: Orders)
    requires LegalOrders(o) && Ready(d) && restart < 65536 && d.restart == last
    requires Has(src, p, if restart != last then Segment(DRI, DriBody(restart)) else [])
    ensures var size := |if restart != last then Segment(DRI, DriBody(restart)) else []|;
            p + size <= |src| && ReadFrom(src, p, 0, d, o) == ReadFrom(src, p + size, 0, d.(restart := restart), o)
  {
    hide Has, ReadFrom, ParseDri, Segment, LegalOrders, Two;
    if restart != last {
      HasSize(src, p, Segment(DRI, DriBody(restart)));
      SegmentNext(src, p, DRI, DriBody(restart), d, o);
      DriRead(src, p + 2, restart);
    } else {
      HasSize(src, p, []);
      assert d.(restart := restart) == d;
    }
  }

  /** The SOS segment. */
  lemma SosNext(src: seq<byte>, p: nat, c: Settings, s: ScanInfo, d: Known) returns (after: Known)
    requires LegalSettings(c) && ScanOf(c, s) && LegalScan(c.frame.comps, s) && Ready(d) && d.sawSof
    requires |d.frame.comps| == |c.frame.comps| && Ids(d.frame.comps) == Ids(c.frame.comps)
    requires Has(src, p, Segment(SOS, SosBody(c.frame.comps, s)))
    ensures ReadFrom(src, p, 0, d, c.orders) == Halt(AtSos, after, p + |Segment(SOS, SosBody(c.frame.comps, s))|, 0)
    ensures after == d.(frame := d.frame.(comps := AfterSos(d.frame.comps, c.frame.comps, s, |s.comps|)), scan := s,
                        scans := d.scans + 1)
  {
    hide Has, LegalSettings, ReadFrom, ParseSos, Segment, SosBody, LegalScan, ScanOf, AfterSos, LegalOrders;
    SettingsOrders(c);
    ScanFacts(c, s);
    SegmentNext(src, p, SOS, SosBody(c.frame.comps, s), d, c.orders);
    SosRead(src, p + 2, d.progressive, d.frame.comps, c.frame.comps, s);
    after := d.(frame := d.frame.(comps := AfterSos(d.frame.comps, c.frame.comps, s, |s.comps|)), scan := s,
                scans := d.scans + 1);
  }

  /** Component `k` of the encoder, `r` of the decoder: the same table numbers wherever the
      scan uses one, and the same table or conditioning values under them. */
  ghost predicate ScanUses(c: Settings, s: ScanInfo, h: Huffs, cond: Conditioning, after: Known, k: Component,
                           r: Component)
  {
    && k.dcTbl < 16 && k.acTbl < 16 && LegalCond(cond) && LegalCond(after.cond)
    && (UsesDc(s) ==>
          && r.dcTbl == k.dcTbl
          && if c.arith then after.cond.dcL[k.dcTbl] == cond.dcL[k.dcTbl]
             && after.cond.dcU[k.dcTbl] == cond.dcU[k.dcTbl]
             else k.dcTbl in h.dc && k.dcTbl in after.huff.dc && after.huff.dc[k.dcTbl] == h.dc[k.dcTbl].table)
    && (UsesAc(s) ==>
          && r.acTbl == k.acTbl
          && if c.arith then after.cond.acK[k.acTbl] == cond.acK[k.acTbl]
             else k.acTbl in h.ac && k.acTbl in after.huff.ac && after.huff.ac[k.acTbl] == h.ac[k.acTbl].table)
  }

  predicate SentBoth(s: ScanInfo, g: Huffs, k: Component)
  {
    && (UsesDc(s) ==> k.dcTbl in g.dc && g.dc[k.dcTbl].sent)
    && (UsesAc(s) ==> k.acTbl in g.ac && g.ac[k.acTbl].sent)
  }

  lemma SentStays(s: ScanInfo, g: Huffs, k: Component, j: Component)
    requires (UsesDc(s) ==> k.dcTbl in g.dc) && (UsesAc(s) ==> k.acTbl in g.ac)
    ensures SentBoth(s, SentFor(s, g, k), k) && (SentBoth(s, g, j) ==> SentBoth(s, SentFor(s, g, k), j))
  {
  }

  /** The tables of a component in the scan are marked as written. */
  lemma {:induction false} ScanSent(c: Settings, s: ScanInfo, h: Huffs, n: nat, i: nat)
    requires ScanOf(c, s) && HaveHuff(c, s, h) && i < n <= |s.comps|
    ensures SentBoth(s, AfterDhts(c, s, h, n), c.frame.comps[s.comps[i]])
    decreases n
  {
    hide SentBoth, SentFor;
    SentStays(s, AfterDhts(c, s, h, n - 1), c.frame.comps[s.comps[n - 1]], c.frame.comps[s.comps[i]]);
    if i < n - 1 {
      ScanSent(c, s, h, n - 1, i);
    }
  }

  /** The conditioning values of a component in the scan are written. */
  lemma {:induction false} ScanInUse(comps: seq<Component>, s: ScanInfo, n: nat, i: nat)
    requires i < n <= |s.comps| && forall j :: 0 <= j < |s.comps| ==> s.comps[j] < |comps|
    requires forall j :: 0 <= j < |comps| ==> comps[j].dcTbl < 16 && comps[j].acTbl < 16
    ensures var k := comps[s.comps[i]];
            (UsesDc(s) ==> DcInUse(comps, s, n)[k.dcTbl]) && (UsesAc(s) ==> AcInUse(comps, s, n)[k.acTbl])
    decreases n
  {
    if i < n - 1 {
      ScanInUse(comps, s, n - 1, i);
    }
  }

  lemma UsesAt(c: Settings, s: ScanInfo, h: Huffs, cond: Conditioning, d: Known, after: Known, i: nat)
    requires LegalSettings(c) && ScanOf(c, s) && LegalScan(c.frame.comps, s) && i < |s.comps|
    requires LegalCond(cond) && LegalCond(d.cond) && LegalCond(after.cond) && |d.frame.comps| == |c.frame.comps|
    requires forall j :: 0 <= j < |c.frame.comps| ==> c.frame.comps[j].dcTbl < 16 && c.frame.comps[j].acTbl < 16
    requires if c.arith then
               CondRead(after.cond, d.cond, cond, DcInUse(c.frame.comps, s, |s.comps|),
                        AcInUse(c.frame.comps, s, |s.comps|), 0)
             else HaveHuff(c, s, h) && HuffsAgree(AfterDhts(c, s, h, |s.comps|), after.huff)
    requires after.frame.comps == AfterSos(d.frame.comps, c.frame.comps, s, |s.comps|)
    ensures ScanUses(c, s, h, cond, after, c.frame.comps[s.comps[i]], after.frame.comps[s.comps[i]])
  {
    hide LegalSettings, AfterSos, AfterDhts, DcInUse, AcInUse;
    AfterSosAt(d.frame.comps, c.frame.comps, s, |s.comps|, i);
    if c.arith {
      ScanInUse(c.frame.comps, s, |s.comps|, i);
    } else {
      ScanSent(c, s, h, |s.comps|, i);
    }
  }

  /** A frame without the table numbers that scan headers bring. */
  function Bare(f: FrameInfo): FrameInfo
  {
    f.(comps := Plain(f.comps))
  }

  lemma {:induction false} BareSos(now: seq<Component>, comps: seq<Component>, s: ScanInfo, n: nat)
    requires |now| == |comps| && n <= |s.comps| && forall i :: 0 <= i < |s.comps| ==> s.comps[i] < |comps|
    ensures Plain(AfterSos(now, comps, s, n)) == Plain(now)
    decreases n
  {
    if n != 0 {
      BareSos(now, comps, s, n - 1);
      var r := AfterSos(now, comps, s, n - 1);
      assert forall k :: 0 <= k < |r| ==> Plain(r)[k] == Plain(now)[k];
    }
  }

  /** The scan header read back: the tables or conditioning values that the scan uses, the
      restart interval, the components with their table numbers, and the scan's
      parameters. */
  lemma ScanHeaderRead(src: seq<byte>, p: nat, c: Settings, s: ScanInfo, h: Huffs, cond: Conditioning,
                       restart: nat, last: nat, d: Known)
    returns (after: Known)
    requires LegalSettings(c) && ScanOf(c, s) && LegalScan(c.frame.comps, s) && LegalValues(cond) && LegalCond(cond)
    requires !c.arith ==> HaveHuff(c, s, h) && LegalHuff(h.dc) && LegalHuff(h.ac) && HuffsAgree(h, d.huff)
    requires Ready(d) && d.sawSof && |d.frame.comps| == |c.frame.comps| && Ids(d.frame.comps) == Ids(c.frame.comps)
    requires restart < 65536 && d.restart == last && Has(src, p, ScanHeader(c, s, h, cond, restart, last))
    ensures ReadFrom(src, p, 0, d, c.orders)
         == Halt(AtSos, after, p + |ScanHeader(c, s, h, cond, restart, last)|, 0)
    ensures Ready(after) && after.scan == s && after.restart == restart && after.scans == d.scans + 1
    ensures after.quant == d.quant && |after.frame.comps| == |c.frame.comps|
    ensures Ids(after.frame.comps) == Ids(c.frame.comps) && Bare(after.frame) == Bare(d.frame)
    ensures after.sawSof && after.progressive == d.progressive && after.subtractGreen == d.subtractGreen
    ensures !c.arith ==> after.cond == d.cond && HuffsAgree(AfterDhts(c, s, h, |s.comps|), after.huff)
    ensures c.arith ==> after.huff == d.huff
    ensures forall i :: 0 <= i < |s.comps| ==>
              ScanUses(c, s, h, cond, after, c.frame.comps[s.comps[i]], after.frame.comps[s.comps[i]])
  {
    hide Has, LegalSettings, LegalHuff, LegalValues, ReadFrom, DhtBytes, DacSegment, Segment, SosBody, HuffsAgree,
      AfterDhts, ScanUses, HaveHuff, LegalScan, ScanOf, CondRead, DcInUse, AcInUse, AfterSos, LegalCond, Distinct;
    SettingsOrders(c);
    TablesFit(c, s);
    ScanFacts(c, s);
    var tables := if c.arith then DacSegment(c.frame.comps, s, cond) else DhtBytes(c, s, h, |s.comps|);
    var dri := if restart != last then Segment(DRI, DriBody(restart)) else [];
    var sos := Segment(SOS, SosBody(c.frame.comps, s));
    HasSplit(src, p, tables + dri, sos);
    HasSplit(src, p, tables, dri);
    var now := d;
    if c.arith {
      var r := DacNext(src, p, c, s, cond, d);
      now := d.(cond := r);
    } else {
      var huff := DhtsRead(src, p, c, s, h, |s.comps|, d);
      now := d.(huff := huff);
    }
    DriNext(src, p + |tables|, restart, last, now, c.orders);
    now := now.(restart := restart);
    after := SosNext(src, p + |tables| + |dri|, c, s, now);
    BareSos(now.frame.comps, c.frame.comps, s, |s.comps|);
    forall i | 0 <= i < |s.comps|
      ensures ScanUses(c, s, h, cond, after, c.frame.comps[s.comps[i]], after.frame.comps[s.comps[i]])
    {
      UsesAt(c, s, h, cond, d, after, i);
    }
  }

  /** What a decoder that was given the file's tables so far makes of the frame header and
      the first scan header: it stops at the scan (after a stop at the marker for the block
      size, if there is one) and has the frame, the quantization tables of all components,
      and all that the scan uses. */
  lemma HeadersRead(src: seq<byte>, p: nat, c: Settings, s: ScanInfo, q: map<nat, QuantSlot>, h: Huffs,
                    cond: Conditioning, restart: nat, last: nat, d: Known)
    returns (after: Known, mid: Known)
    requires LegalSettings(c) && LegalQuant(q) && HaveQuant(c, q) && c.frame.height < 65536 && c.frame.width < 65536
    requires Transformable(c)
    requires ScanOf(c, s) && LegalScan(c.frame.comps, s) && LegalValues(cond) && LegalCond(cond)
    requires !c.arith ==> HaveHuff(c, s, h) && LegalHuff(h.dc) && LegalHuff(h.ac) && HuffsAgree(h, d.huff)
    requires Ready(d) && !d.sawSof && QuantAgrees(c, q, d.quant) && restart < 65536 && d.restart == last
    requires Has(src, p, FrameHeader(c, q) + ScanHeader(c, s, h, cond, restart, last))
    ensures var sof := p + |FrameHeader(c, q)|; var end := sof + |ScanHeader(c, s, h, cond, restart, last)|;
            && sof <= |src| && Ready(mid)
            && ReadFrom(src, sof, 0, mid, c.orders) == Halt(AtSos, after, end, 0)
            && ReadFrom(src, p, 0, d, c.orders) ==
               if c.progressive && c.blockSize != 8 then Halt(AtSos, mid, sof, 0) else Halt(AtSos, after, end, 0)
    ensures after.scan == s && after.restart == restart && |after.frame.comps| == |c.frame.comps|
    ensures after.subtractGreen == (d.subtractGreen || c.transform != 0)
    ensures forall i :: 0 <= i < |c.frame.comps| ==>
              var tq := c.frame.comps[i].tq; tq in after.quant && QuantSame(c, q[tq].vals, after.quant[tq])
    ensures forall i :: 0 <= i < |s.comps| ==>
              ScanUses(c, s, h, cond, after, c.frame.comps[s.comps[i]], after.frame.comps[s.comps[i]])
  {
    hide Has, LegalSettings, LegalQuant, LegalHuff, LegalValues, ReadFrom, FrameHeader, ScanHeader, HuffsAgree,
      ScanUses, QuantSame, QuantAgrees, LegalScan, ScanOf, HaveHuff, LegalOrders;
    SettingsOrders(c);
    ScanFacts(c, s);
    HasSplit(src, p, FrameHeader(c, q), ScanHeader(c, s, h, cond, restart, last));
    mid := FrameHeaderRead(src, p, c, q, d);
    PlainIds(c.frame.comps);
    after := ScanHeaderRead(src, p + |FrameHeader(c, q)|, c, s, h, cond, restart, last, mid);
  }

  lemma PlainIds(comps: seq<Component>)
    ensures Ids(Plain(comps)) == Ids(comps)
  {
  }
}
