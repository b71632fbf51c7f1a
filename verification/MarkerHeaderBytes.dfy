/** The frame and scan headers byte by byte: which segment stands at which place, for any tables and
    any components (jcmarker.c, write_frame_header and write_scan_header). */
module MarkerHeaderBytes {
  import opened Bytes
  import opened HuffmanCode
  import opened ArithScan
  import opened MarkerFormat
  import opened MarkerRoundTrip
  import opened MarkerWriting
  import opened MarkerBytes

  // ------------------------------------------------------------ the frame header

  /** Component `i` is the first one with its quantization table, which was not written before. */
  predicate QuantNew(c: Settings, q: map<nat, QuantSlot>, i: nat)
    requires HaveQuant(c, q) && i < |c.frame.comps|
  {
    var tq := c.frame.comps[i].tq;
    !q[tq].sent && forall j :: 0 <= j < i ==> c.frame.comps[j].tq != tq
  }

  function DqtSize(c: Settings, q: map<nat, QuantSlot>, i: nat): nat
    requires LegalSettings(c) && LegalQuant(q) && HaveQuant(c, q) && i < |c.frame.comps|
  {
    if QuantNew(c, q, i) then 5 + QuantSize(TableAbove(c, q, i), CountOf(c)) else 0
  }

  /** Where the table of component `i` is written, if it is. */
  function DqtPlace(c: Settings, q: map<nat, QuantSlot>, i: nat): nat
    requires LegalSettings(c) && LegalQuant(q) && HaveQuant(c, q) && i <= |c.frame.comps|
  {
    if i == 0 then 0 else DqtPlace(c, q, i - 1) + DqtSize(c, q, i - 1)
  }

  predicate QuantTaken(c: Settings, n: nat, k: nat)
    requires n <= |c.frame.comps|
  {
    exists j :: 0 <= j < n && c.frame.comps[j].tq == k
  }

  lemma {:induction false} QuantSent(c: Settings, q: map<nat, QuantSlot>, n: nat, k: nat)
    requires HaveQuant(c, q) && n <= |c.frame.comps| && k in q
    ensures AfterDqts(c, q, n)[k].sent <==> q[k].sent || QuantTaken(c, n, k)
  {
    if n != 0 {
      QuantSent(c, q, n - 1, k);
      assert QuantTaken(c, n, k) <==> QuantTaken(c, n - 1, k) || c.frame.comps[n - 1].tq == k;
    }
  }

  /** What is written of the tables of the first `n` components. */
  predicate DqtsPlaced(src: seq<byte>, p: nat, c: Settings, q: map<nat, QuantSlot>, n: nat)
    requires LegalSettings(c) && LegalQuant(q) && HaveQuant(c, q) && n <= |c.frame.comps|
  {
    forall i :: 0 <= i < n && QuantNew(c, q, i) ==> DqtPlaced(src, p, c, q, i)
  }

  predicate DqtPlaced(src: seq<byte>, p: nat, c: Settings, q: map<nat, QuantSlot>, i: nat)
    requires LegalSettings(c) && LegalQuant(q) && HaveQuant(c, q) && i < |c.frame.comps|
  {
    var tq := c.frame.comps[i].tq;
    assert LegalQuantSlot(q[tq]);
    DqtLayout(src, p + DqtPlace(c, q, i), tq, TableAbove(c, q, i), InOrder(c, q[tq].vals))
  }

  lemma OneDqt(src: seq<byte>, p: nat, c: Settings, q: map<nat, QuantSlot>, i: nat)
    requires LegalSettings(c) && LegalQuant(q) && HaveQuant(c, q) && i < |c.frame.comps|
    requires LegalQuantSlot(AfterDqts(c, q, i)[c.frame.comps[i].tq])
    requires var tq := c.frame.comps[i].tq; Has(src, p + DqtPlace(c, q, i), DqtSegment(c, tq, AfterDqts(c, q, i)[tq]))
    ensures var size := |DqtSegment(c, c.frame.comps[i].tq, AfterDqts(c, q, i)[c.frame.comps[i].tq])|;
      DqtPlace(c, q, i + 1) == DqtPlace(c, q, i) + size
    ensures QuantNew(c, q, i) ==> DqtPlaced(src, p, c, q, i)
  {
    hide Has, LegalSettings, LegalQuant, InOrder, AnyAbove, CountOf, AfterDqts, DqtLayout, QuantSize;
    var tq := c.frame.comps[i].tq;
    var slot := AfterDqts(c, q, i)[tq];
    SettingsTq(c, i);
    QuantSent(c, q, i, tq);
    if !slot.sent {
      DqtSpelled(src, p + DqtPlace(c, q, i), c, tq, slot);
    }
  }

  lemma {:induction false} DqtsSpelled(src: seq<byte>, p: nat, c: Settings, q: map<nat, QuantSlot>, n: nat)
    requires LegalSettings(c) && LegalQuant(q) && HaveQuant(c, q) && n <= |c.frame.comps|
    requires Has(src, p, DqtBytes(c, q, n))
    ensures |DqtBytes(c, q, n)| == DqtPlace(c, q, n) && DqtsPlaced(src, p, c, q, n)
  {
    hide Has, LegalSettings, LegalQuant, DqtSegment, AfterDqts, DqtPlaced, QuantNew, LegalQuantSlot, DqtSize, HaveQuant,
      DqtPlace, DqtBytes;
    if n == 0 {
      NoDqts(c, q);
    } else {
      var i := n - 1;
      var tq := c.frame.comps[i].tq;
      NextDqt(c, q, i);
      SlotStays(c, q, i);
      HasSplit(src, p, DqtBytes(c, q, i), DqtSegment(c, tq, AfterDqts(c, q, i)[tq]));
      DqtsSpelled(src, p, c, q, i);
      OneDqt(src, p, c, q, i);
    }
  }

  lemma NoDqts(c: Settings, q: map<nat, QuantSlot>)
    requires LegalSettings(c) && LegalQuant(q) && HaveQuant(c, q)
    ensures DqtBytes(c, q, 0) == [] && DqtPlace(c, q, 0) == 0
  {
  }

  lemma SlotStays(c: Settings, q: map<nat, QuantSlot>, i: nat)
    requires LegalQuant(q) && HaveQuant(c, q) && i < |c.frame.comps|
    ensures LegalQuantSlot(AfterDqts(c, q, i)[c.frame.comps[i].tq])
  {
    assert LegalQuantSlot(q[c.frame.comps[i].tq]);
  }

  function LseSize26(c: Settings): nat
  {
    if c.transform != 0 then 26 else 0
  }

  /** The frame header: the quantization tables that were not written before, each where its first
      component has its turn; the frame; the color transform, if there is one; and the block size, if
      the frame is progressive and it is not 8. */
  lemma FrameHeaderSpelled(src: seq<byte>, p: nat, c: Settings, q: map<nat, QuantSlot>)
    requires LegalSettings(c) && LegalQuant(q) && HaveQuant(c, q) && Transformable(c)
    requires c.frame.height < 65536 && c.frame.width < 65536 && Has(src, p, FrameHeader(c, q))
    ensures DqtsPlaced(src, p, c, q, |c.frame.comps|)
    ensures SofLayout(src, p + DqtPlace(c, q, |c.frame.comps|), SofCode(c, q), c.frame)
    ensures var lse := p + DqtPlace(c, q, |c.frame.comps|) + 10 + 3 * |c.frame.comps|;
      && (c.transform != 0 ==> Has(src, lse, LseSegment(c)) && |LseSegment(c)| == 26)
      && (c.progressive && c.blockSize != 8 ==>
            Has(src, lse + LseSize26(c), PseudoSos(c)) && |PseudoSos(c)| == 8)
      && p + |FrameHeader(c, q)| == lse + LseSize26(c) + if c.progressive && c.blockSize != 8 then 8 else 0
  {
    hide Has, LegalSettings, LegalQuant, DqtBytes, SofBody, Segment, SofCode, DqtsPlaced, SofLayout, DqtPlace;
    var n := |c.frame.comps|;
    var dqts, sof := DqtBytes(c, q, n), Segment(SofCode(c, q), SofBody(c.frame));
    HasSplit(src, p, dqts + sof + LseSegment(c), PseudoSos(c));
    HasSplit(src, p, dqts + sof, LseSegment(c));
    HasSplit(src, p, dqts, sof);
    DqtsSpelled(src, p, c, q, n);
    SettingsFrame(c);
    SofSpelled(src, p + DqtPlace(c, q, n), SofCode(c, q), c.frame);
    if c.transform != 0 {
      SettingsIds(c);
      LseSpelled(c);
    }
    if c.progressive && c.blockSize != 8 {
      PseudoSpelled(c);
    }
  }

  lemma SettingsIds(c: Settings)
    requires LegalSettings(c)
    ensures forall i :: 0 <= i < |c.frame.comps| ==> c.frame.comps[i].id < 256
  {
  }

  lemma SettingsFrame(c: Settings)
    requires LegalSettings(c) && c.frame.height < 65536 && c.frame.width < 65536
    ensures LegalFrame(c.frame)
  {
  }

  // ------------------------------------------------------------- the scan header

  function CompOf(c: Settings, s: ScanInfo, i: nat): Component
    requires ScanOf(c, s) && i < |s.comps|
  {
    c.frame.comps[s.comps[i]]
  }

  /** Component `i` is the scan's first one with its DC table, which is used and was not written before. */
  predicate DcNew(c: Settings, s: ScanInfo, h: Huffs, i: nat)
    requires ScanOf(c, s) && HaveHuff(c, s, h) && i < |s.comps|
  {
    && s.ss == 0 && s.ah == 0 && !h.dc[CompOf(c, s, i).dcTbl].sent
    && forall j :: 0 <= j < i ==> CompOf(c, s, j).dcTbl != CompOf(c, s, i).dcTbl
  }

  predicate AcNew(c: Settings, s: ScanInfo, h: Huffs, i: nat)
    requires ScanOf(c, s) && HaveHuff(c, s, h) && i < |s.comps|
  {
    && s.se != 0 && !h.ac[CompOf(c, s, i).acTbl].sent
    && forall j :: 0 <= j < i ==> CompOf(c, s, j).acTbl != CompOf(c, s, i).acTbl
  }

  function DhtSize(slot: HuffSlot): nat
    requires WellFormed(slot.table)
  {
    21 + CodeCount(slot.table.bits[1..])
  }

  function DcSize(c: Settings, s: ScanInfo, h: Huffs, i: nat): nat
    requires ScanOf(c, s) && HaveHuff(c, s, h) && LegalHuff(h.dc) && i < |s.comps|
  {
    if DcNew(c, s, h, i) then
      assert LegalTable(h.dc[CompOf(c, s, i).dcTbl].table);
      DhtSize(h.dc[CompOf(c, s, i).dcTbl])
    else 0
  }

  function AcSize(c: Settings, s: ScanInfo, h: Huffs, i: nat): nat
    requires ScanOf(c, s) && HaveHuff(c, s, h) && LegalHuff(h.ac) && i < |s.comps|
  {
    if AcNew(c, s, h, i) then
      assert LegalTable(h.ac[CompOf(c, s, i).acTbl].table);
      DhtSize(h.ac[CompOf(c, s, i).acTbl])
    else 0
  }

  /** Where the tables of component `i` are written, if they are. */
  function DhtPlace(c: Settings, s: ScanInfo, h: Huffs, i: nat): nat
    requires ScanOf(c, s) && HaveHuff(c, s, h) && LegalHuff(h.dc) && LegalHuff(h.ac) && i <= |s.comps|
  {
    if i == 0 then 0 else DhtPlace(c, s, h, i - 1) + DcSize(c, s, h, i - 1) + AcSize(c, s, h, i - 1)
  }

  predicate DcTaken(c: Settings, s: ScanInfo, n: nat, k: nat)
    requires ScanOf(c, s) && n <= |s.comps|
  {
    s.ss == 0 && s.ah == 0 && exists j :: 0 <= j < n && CompOf(c, s, j).dcTbl == k
  }

  predicate AcTaken(c: Settings, s: ScanInfo, n: nat, k: nat)
    requires ScanOf(c, s) && n <= |s.comps|
  {
    s.se != 0 && exists j :: 0 <= j < n && CompOf(c, s, j).acTbl == k
  }

  lemma TakenNext(c: Settings, s: ScanInfo, n: nat, k: nat)
    requires ScanOf(c, s) && n < |s.comps|
    ensures DcTaken(c, s, n + 1, k) <==> DcTaken(c, s, n, k) || (UsesDc(s) && CompOf(c, s, n).dcTbl == k)
    ensures AcTaken(c, s, n + 1, k) <==> AcTaken(c, s, n, k) || (UsesAc(s) && CompOf(c, s, n).acTbl == k)
  {
  }

  lemma {:induction false} DcSent(c: Settings, s: ScanInfo, h: Huffs, n: nat, k: nat)
    requires ScanOf(c, s) && HaveHuff(c, s, h) && n <= |s.comps| && k in h.dc
    ensures AfterDhts(c, s, h, n).dc[k].sent <==> h.dc[k].sent || DcTaken(c, s, n, k)
    decreases n
  {
    hide DcTaken, AcTaken;
    if n != 0 {
      DcSent(c, s, h, n - 1, k);
      TakenNext(c, s, n - 1, k);
    } else {
      NoneTaken(c, s, k);
    }
  }

  lemma {:induction false} AcSent(c: Settings, s: ScanInfo, h: Huffs, n: nat, k: nat)
    requires ScanOf(c, s) && HaveHuff(c, s, h) && n <= |s.comps| && k in h.ac
    ensures AfterDhts(c, s, h, n).ac[k].sent <==> h.ac[k].sent || AcTaken(c, s, n, k)
    decreases n
  {
    hide DcTaken, AcTaken;
    if n != 0 {
      AcSent(c, s, h, n - 1, k);
      TakenNext(c, s, n - 1, k);
    } else {
      NoneTaken(c, s, k);
    }
  }

  lemma NoneTaken(c: Settings, s: ScanInfo, k: nat)
    requires ScanOf(c, s)
    ensures !DcTaken(c, s, 0, k) && !AcTaken(c, s, 0, k)
  {
  }

  /** A component's tables are where they should be: class and number, counts and symbols. */
  predicate TablesPlaced(src: seq<byte>, p: nat, c: Settings, s: ScanInfo, h: Huffs, i: nat)
    requires ScanOf(c, s) && HaveHuff(c, s, h) && LegalHuff(h.dc) && LegalHuff(h.ac) && i < |s.comps|
  {
    var k, at := CompOf(c, s, i), p + DhtPlace(c, s, h, i);
    && (DcNew(c, s, h, i) ==> TablePlaced(src, at, false, k.dcTbl, h.dc[k.dcTbl].table))
    && (AcNew(c, s, h, i) ==> TablePlaced(src, at + DcSize(c, s, h, i), true, k.acTbl, h.ac[k.acTbl].table))
  }

  predicate TablePlaced(src: seq<byte>, p: nat, ac: bool, index: nat, t: Table)
  {
    && WellFormed(t) && CodeCount(t.bits[1..]) <= 256
    && DhtLayout(src, p, ac, index, t.bits[1..], t.vals[..CodeCount(t.bits[1..])])
  }

  predicate DhtsPlaced(src: seq<byte>, p: nat, c: Settings, s: ScanInfo, h: Huffs, n: nat)
    requires ScanOf(c, s) && HaveHuff(c, s, h) && LegalHuff(h.dc) && LegalHuff(h.ac) && n <= |s.comps|
  {
    forall i :: 0 <= i < n ==> TablesPlaced(src, p, c, s, h, i)
  }

  lemma OneTable(src: seq<byte>, p: nat, index: nat, ac: bool, slot: HuffSlot)
    requires LegalTable(slot.table) && index < 4 && Has(src, p, DhtSegment(index, ac, slot))
    ensures |DhtSegment(index, ac, slot)| == if slot.sent then 0 else DhtSize(slot)
    ensures !slot.sent ==> TablePlaced(src, p, ac, index, slot.table)
  {
    hide Has, DhtLayout, CodeCount;
    if !slot.sent {
      DhtSpelled(src, p, index, ac, slot);
    }
  }

  lemma CompTablesSpelled(src: seq<byte>, p: nat, c: Settings, s: ScanInfo, h: Huffs, i: nat)
    requires LegalSettings(c) && !c.arith && ScanOf(c, s) && HaveHuff(c, s, h) && LegalHuff(h.dc) && LegalHuff(h.ac)
    requires i < |s.comps| && Writable(s, AfterDhts(c, s, h, i), CompOf(c, s, i))
    requires Has(src, p + DhtPlace(c, s, h, i), TablesOf(s, AfterDhts(c, s, h, i), CompOf(c, s, i)))
    ensures TablesPlaced(src, p, c, s, h, i)
    ensures |TablesOf(s, AfterDhts(c, s, h, i), CompOf(c, s, i))| == DcSize(c, s, h, i) + AcSize(c, s, h, i)
  {
    hide Has, LegalSettings, LegalHuff, AfterDhts, DhtSegment, LegalTable, TablePlaced, HaveHuff, ScanOf, DhtSize,
      DhtPlace;
    var g, k, at := AfterDhts(c, s, h, i), CompOf(c, s, i), p + DhtPlace(c, s, h, i);
    SettingsTables(c, s, i);
    TablesThere(c, s, h, i);
    if UsesDc(s) { DcSent(c, s, h, i, k.dcTbl); }
    if UsesAc(s) { AcSent(c, s, h, i, k.acTbl); }
    var a := if UsesDc(s) then DhtSegment(k.dcTbl, false, g.dc[k.dcTbl]) else [];
    var b := if UsesAc(s) then DhtSegment(k.acTbl, true, g.ac[k.acTbl]) else [];
    HasSplit(src, at, a, b);
    if UsesDc(s) {
      OneTable(src, at, k.dcTbl, false, g.dc[k.dcTbl]);
    }
    if UsesAc(s) {
      OneTable(src, at + |a|, k.acTbl, true, g.ac[k.acTbl]);
    }
  }

  lemma TablesThere(c: Settings, s: ScanInfo, h: Huffs, i: nat)
    requires ScanOf(c, s) && HaveHuff(c, s, h) && i < |s.comps|
    ensures UsesDc(s) ==> CompOf(c, s, i).dcTbl in h.dc
    ensures UsesAc(s) ==> CompOf(c, s, i).acTbl in h.ac
  {
  }

  lemma {:induction false} DhtsSpelled(src: seq<byte>, p: nat, c: Settings, s: ScanInfo, h: Huffs, n: nat)
    requires LegalSettings(c) && !c.arith && ScanOf(c, s) && HaveHuff(c, s, h) && LegalHuff(h.dc) && LegalHuff(h.ac)
    requires n <= |s.comps| && Has(src, p, DhtBytes(c, s, h, n))
    ensures |DhtBytes(c, s, h, n)| == DhtPlace(c, s, h, n) && DhtsPlaced(src, p, c, s, h, n)
  {
    hide Has, LegalSettings, LegalHuff, TablesOf, AfterDhts, TablesPlaced, Writable, HaveHuff, ScanOf, DcSize, AcSize;
    if n != 0 {
      var i := n - 1;
      NextDht(c, s, h, i);
      HasSplit(src, p, DhtBytes(c, s, h, i), TablesOf(s, AfterDhts(c, s, h, i), CompOf(c, s, i)));
      DhtsSpelled(src, p, c, s, h, i);
      CompTablesSpelled(src, p, c, s, h, i);
    }
  }

  /** The scan header with Huffman coding: the tables the scan uses that were not written before, the
      restart interval if it has changed, and the scan. */
  lemma HuffmanHeaderSpelled(src: seq<byte>, p: nat, c: Settings, s: ScanInfo, h: Huffs, cond: Conditioning,
                             restart: nat, last: nat)
    requires LegalSettings(c) && !c.arith && ScanOf(c, s) && LegalScan(c.frame.comps, s) && LegalCond(cond)
    requires HaveHuff(c, s, h) && LegalHuff(h.dc) && LegalHuff(h.ac) && restart < 65536
    requires Has(src, p, ScanHeader(c, s, h, cond, restart, last))
    ensures var dri := DhtPlace(c, s, h, |s.comps|); var sos := dri + if restart != last then 6 else 0;
      && DhtsPlaced(src, p, c, s, h, |s.comps|)
      && (restart != last ==> DriLayout(src, p + dri, restart))
      && SosLayout(src, p + sos, Specs(c.frame.comps, s), s.ss, s.se, s.ah, s.al)
      && |ScanHeader(c, s, h, cond, restart, last)| == sos + 8 + 2 * |s.comps|
  {
    hide Has, LegalSettings, LegalHuff, LegalScan, DhtBytes, Segment, SosBody, DhtsPlaced, DhtPlace, HaveHuff, ScanOf,
      DriLayout, SosLayout, Specs;
    var tables := DhtBytes(c, s, h, |s.comps|);
    DhtsThenRest(src, p, c, s, h, cond, restart, last);
    DhtsSpelled(src, p, c, s, h, |s.comps|);
    RestSpelled(src, p + |tables|, c, s, restart, last);
  }

  lemma DhtsThenRest(src: seq<byte>, p: nat, c: Settings, s: ScanInfo, h: Huffs, cond: Conditioning, restart: nat,
                     last: nat)
    requires LegalSettings(c) && !c.arith && ScanOf(c, s) && LegalCond(cond)
    requires HaveHuff(c, s, h) && LegalHuff(h.dc) && LegalHuff(h.ac)
    requires Has(src, p, ScanHeader(c, s, h, cond, restart, last))
    ensures var tables := DhtBytes(c, s, h, |s.comps|);
      && Has(src, p, tables) && Has(src, p + |tables|, RestOf(c, s, restart, last))
      && |ScanHeader(c, s, h, cond, restart, last)| == |tables| + |RestOf(c, s, restart, last)|
  {
    hide Has, LegalSettings, LegalHuff, DhtBytes, Segment, SosBody, HaveHuff;
    var tables := DhtBytes(c, s, h, |s.comps|);
    var dri := if restart != last then Segment(DRI, DriBody(restart)) else [];
    assert ScanHeader(c, s, h, cond, restart, last) == tables + RestOf(c, s, restart, last);
    HasSplit(src, p, tables, RestOf(c, s, restart, last));
  }

  /** The scan header after the tables. */
  function RestOf(c: Settings, s: ScanInfo, restart: nat, last: nat): seq<byte>
    requires ScanOf(c, s)
  {
    (if restart != last then Segment(DRI, DriBody(restart)) else []) + Segment(SOS, SosBody(c.frame.comps, s))
  }

  lemma RestSpelled(src: seq<byte>, p: nat, c: Settings, s: ScanInfo, restart: nat, last: nat)
    requires ScanOf(c, s) && LegalScan(c.frame.comps, s) && restart < 65536 && Has(src, p, RestOf(c, s, restart, last))
    ensures var sos := if restart != last then 6 else 0;
      && (restart != last ==> DriLayout(src, p, restart))
      && SosLayout(src, p + sos, Specs(c.frame.comps, s), s.ss, s.se, s.ah, s.al)
      && |RestOf(c, s, restart, last)| == sos + 8 + 2 * |s.comps|
  {
    hide Has, LegalScan, Segment, SosBody, DriLayout, SosLayout, Specs;
    var dri := if restart != last then Segment(DRI, DriBody(restart)) else [];
    HasSplit(src, p, dri, Segment(SOS, SosBody(c.frame.comps, s)));
    if restart != last {
      DriSpelled(src, p, restart);
    }
    SosSpelled(src, p + |dri|, c.frame.comps, s);
  }

  /** The scan header with arithmetic coding: the conditioning values of the tables the scan uses, the
      restart interval if it has changed, and the scan. */
  lemma ArithHeaderSpelled(src: seq<byte>, p: nat, c: Settings, s: ScanInfo, h: Huffs, cond: Conditioning,
                           restart: nat, last: nat)
    returns (entries: seq<(nat, nat)>)
    requires LegalSettings(c) && c.arith && ScanOf(c, s) && LegalScan(c.frame.comps, s) && LegalCond(cond)
    requires LegalValues(cond) && restart < 65536 && Has(src, p, ScanHeader(c, s, h, cond, restart, last))
    ensures entries != [] ==> DacLayout(src, p, entries)
    ensures Conditions(entries, c.frame.comps, s, cond)
    ensures var dri := if entries == [] then 0 else 4 + 2 * |entries|;
      var sos := dri + if restart != last then 6 else 0;
      && (restart != last ==> DriLayout(src, p + dri, restart))
      && SosLayout(src, p + sos, Specs(c.frame.comps, s), s.ss, s.se, s.ah, s.al)
      && |ScanHeader(c, s, h, cond, restart, last)| == sos + 8 + 2 * |s.comps|
  {
    hide Has, LegalSettings, LegalScan, DacSegment, DriLayout, SosLayout, Specs, DacLayout, Conditions, LegalValues,
      ScanHeader, RestOf;
    TablesFit(c, s);
    var dac := DacSegment(c.frame.comps, s, cond);
    DacThenRest(c, s, h, cond, restart, last);
    HasSplit(src, p, dac, RestOf(c, s, restart, last));
    entries := DacSpelled(src, p, c.frame.comps, s, cond);
    RestSpelled(src, p + |dac|, c, s, restart, last);
  }

  lemma DacThenRest(c: Settings, s: ScanInfo, h: Huffs, cond: Conditioning, restart: nat, last: nat)
    requires LegalSettings(c) && c.arith && ScanOf(c, s) && LegalCond(cond)
    requires forall j :: 0 <= j < |c.frame.comps| ==> c.frame.comps[j].dcTbl < 16 && c.frame.comps[j].acTbl < 16
    ensures ScanHeader(c, s, h, cond, restart, last)
         == DacSegment(c.frame.comps, s, cond) + RestOf(c, s, restart, last)
  {
    hide LegalSettings, DacSegment, Segment, SosBody;
  }
}
