/** The marker writer (jcmarker.c): each segment with the length field figured beforehand,
    tables once each. */
module MarkerWriting {
  import opened Bytes
  import opened Coefficients
  import opened HuffmanCode
  import opened ArithScan
  import opened MarkerFormat
  import opened MarkerRoundTrip

  /** lim_Se: the last coefficient of a block. */
  function LimSe(blockSize: nat): (lim: nat)
    requires 1 <= blockSize <= 16
    ensures lim < 64 && IsCount(lim + 1)
  {
    if blockSize < 8 then
      assert blockSize == 1 || blockSize == 2 || blockSize == 3 || blockSize == 4 || blockSize == 5 || blockSize == 6
        || blockSize == 7;
      blockSize * blockSize - 1
    else 63
  }

  /** Parameters of the whole image that the writer looks at. */
  datatype Settings = Settings(frame: FrameInfo, arith: bool, progressive: bool, blockSize: nat, orders: Orders,
                               transform: nat)

  const JCT_SUBTRACT_GREEN: nat := 1

  /** A color transform, if any, that can be specified. */
  predicate Transformable(c: Settings)
  {
    c.transform == 0 || (c.transform == JCT_SUBTRACT_GREEN && |c.frame.comps| >= 3)
  }

  predicate LegalSettings(c: Settings)
  {
    && 1 <= c.blockSize <= 16 && LegalOrders(c.orders) && Distinct(Ids(c.frame.comps)) && 0 < |c.frame.comps| < 256
    && c.frame.precision < 256 && 0 < c.frame.height && 0 < c.frame.width
    && forall i :: 0 <= i < |c.frame.comps| ==>
         var k := c.frame.comps[i];
         k.id < 256 && k.h < 16 && k.v < 16 && k.tq < 4 && k.dcTbl < 16 && k.acTbl < 16
         && (!c.arith ==> k.dcTbl < 4 && k.acTbl < 4)
  }

  /** The values of a quantization table that are written, in zigzag order. */
  function Written(c: Settings, vals: seq<nat>): (r: seq<nat>)
    requires LegalSettings(c) && |vals| == 64
    ensures |r| == LimSe(c.blockSize) + 1
  {
    var n := LimSe(c.blockSize) + 1;
    Zigzagged(vals, OrderOf(c.orders, n), n)
  }

  predicate LegalQuantSlot(s: QuantSlot)
  {
    |s.vals| == 64 && forall i :: 0 <= i < 64 ==> s.vals[i] < 65536
  }

  predicate LegalQuant(q: map<nat, QuantSlot>)
  {
    forall k :: k in q ==> LegalQuantSlot(q[k])
  }

  predicate LegalHuff(h: map<nat, HuffSlot>)
  {
    forall k :: k in h ==> LegalTable(h[k].table)
  }

  // ------------------------------------------------------------- what is to be written

  /** A segment, unless the table was written before. */
  function DqtSegment(c: Settings, index: nat, slot: QuantSlot): seq<byte>
    requires LegalSettings(c) && |slot.vals| == 64
  {
    if slot.sent then [] else Segment(DQT, DqtBody(index, Written(c, slot.vals)))
  }

  function DhtSegment(index: nat, ac: bool, slot: HuffSlot): seq<byte>
    requires LegalTable(slot.table)
  {
    if slot.sent then [] else Segment(DHT, DhtBody(index, ac, slot.table))
  }

  /** The tables that a scan's conditioning values are written of. */
  function DcInUse(comps: seq<Component>, s: ScanInfo, n: nat): (r: seq<bool>)
    requires n <= |s.comps| && forall i :: 0 <= i < |s.comps| ==> s.comps[i] < |comps|
    requires forall i :: 0 <= i < |comps| ==> comps[i].dcTbl < 16
    ensures |r| == 16
  {
    if n == 0 then seq(16, i => false)
    else if s.ss == 0 && s.ah == 0 then DcInUse(comps, s, n - 1)[comps[s.comps[n - 1]].dcTbl := true]
    else DcInUse(comps, s, n - 1)
  }

  function AcInUse(comps: seq<Component>, s: ScanInfo, n: nat): (r: seq<bool>)
    requires n <= |s.comps| && forall i :: 0 <= i < |s.comps| ==> s.comps[i] < |comps|
    requires forall i :: 0 <= i < |comps| ==> comps[i].acTbl < 16
    ensures |r| == 16
  {
    if n == 0 then seq(16, i => false)
    else if s.se != 0 then AcInUse(comps, s, n - 1)[comps[s.comps[n - 1]].acTbl := true]
    else AcInUse(comps, s, n - 1)
  }

  /** Nothing, if no table is in use. */
  function DacSegment(comps: seq<Component>, s: ScanInfo, cond: Conditioning): seq<byte>
    requires LegalCond(cond) && (forall i :: 0 <= i < |s.comps| ==> s.comps[i] < |comps|)
    requires forall i :: 0 <= i < |comps| ==> comps[i].dcTbl < 16 && comps[i].acTbl < 16
  {
    var body := DacBody(DcInUse(comps, s, |s.comps|), AcInUse(comps, s, |s.comps|), cond, 0);
    if body == [] then [] else Segment(DAC, body)
  }

  // ------------------------------------------------------------------- the headers

  /** Every component's quantization table is defined. */
  predicate HaveQuant(c: Settings, quant: map<nat, QuantSlot>)
  {
    forall i :: 0 <= i < |c.frame.comps| ==> c.frame.comps[i].tq in quant
  }

  /** The tables after those of the first `n` components are written. */
  function AfterDqts(c: Settings, quant: map<nat, QuantSlot>, n: nat): (r: map<nat, QuantSlot>)
    requires HaveQuant(c, quant) && n <= |c.frame.comps|
    ensures r.Keys == quant.Keys && forall k :: k in quant ==> r[k].vals == quant[k].vals
  {
    if n == 0 then quant
    else
      var q, tq := AfterDqts(c, quant, n - 1), c.frame.comps[n - 1].tq;
      q[tq := q[tq].(sent := true)]
  }

  function DqtBytes(c: Settings, quant: map<nat, QuantSlot>, n: nat): seq<byte>
    requires LegalSettings(c) && LegalQuant(quant) && HaveQuant(c, quant) && n <= |c.frame.comps|
  {
    if n == 0 then []
    else
      var tq := c.frame.comps[n - 1].tq;
      assert LegalQuantSlot(quant[tq]);
      DqtBytes(c, quant, n - 1) + DqtSegment(c, tq, AfterDqts(c, quant, n - 1)[tq])
  }

  /** Some component's table needs 16-bit values. */
  predicate AnyWide(c: Settings, quant: map<nat, QuantSlot>, n: nat)
    requires LegalSettings(c) && LegalQuant(quant) && HaveQuant(c, quant) && n <= |c.frame.comps|
  {
    exists i :: 0 <= i < n && WideAt(c, quant, i)
  }

  predicate WideAt(c: Settings, quant: map<nat, QuantSlot>, i: nat)
    requires LegalSettings(c) && LegalQuant(quant) && HaveQuant(c, quant) && i < |c.frame.comps|
  {
    assert LegalQuantSlot(quant[c.frame.comps[i].tq]);
    Wide(Written(c, quant[c.frame.comps[i].tq].vals))
  }

  /** The SOF marker for the coding process. */
  function SofCode(c: Settings, quant: map<nat, QuantSlot>): byte
    requires LegalSettings(c) && LegalQuant(quant) && HaveQuant(c, quant)
  {
    if c.arith then (if c.progressive then SOF10 else SOF9)
    else if c.progressive then SOF2
    else if c.frame.precision == 8 && c.blockSize == 8 && FewTables(c, |c.frame.comps|)
            && !AnyWide(c, quant, |c.frame.comps|) then SOF0
    else SOF1
  }

  /** Baseline frames have two Huffman tables of each kind. */
  predicate FewTables(c: Settings, n: nat)
    requires n <= |c.frame.comps|
  {
    forall i :: 0 <= i < n ==> c.frame.comps[i].dcTbl <= 1 && c.frame.comps[i].acTbl <= 1
  }

  /** The marker by which a progressive file with other block sizes gives the block size. */
  function PseudoSos(c: Settings): seq<byte>
  {
    if c.progressive && c.blockSize != 8 then Segment(SOS, [0, 0, ToByte(c.blockSize * c.blockSize - 1), 0]) else []
  }

  function LseSegment(c: Settings): seq<byte>
    requires Transformable(c)
  {
    if c.transform != 0 then Segment(LSE, FieldBytes(LseFields(Ids(c.frame.comps)))) else []
  }

  /** write_frame_header. */
  function FrameHeader(c: Settings, quant: map<nat, QuantSlot>): seq<byte>
    requires LegalSettings(c) && LegalQuant(quant) && HaveQuant(c, quant) && Transformable(c)
  {
    DqtBytes(c, quant, |c.frame.comps|) + Segment(SofCode(c, quant), SofBody(c.frame)) + LseSegment(c) + PseudoSos(c)
  }

  /** DC and AC tables. */
  datatype Huffs = Huffs(dc: map<nat, HuffSlot>, ac: map<nat, HuffSlot>)

  predicate UsesDc(s: ScanInfo)
  {
    s.ss == 0 && s.ah == 0
  }

  predicate UsesAc(s: ScanInfo)
  {
    s.se != 0
  }

  predicate HaveHuff(c: Settings, s: ScanInfo, h: Huffs)
    requires ScanOf(c, s)
  {
    forall i :: 0 <= i < |s.comps| ==>
      && (UsesDc(s) ==> c.frame.comps[s.comps[i]].dcTbl in h.dc)
      && (UsesAc(s) ==> c.frame.comps[s.comps[i]].acTbl in h.ac)
  }

  function SentIn(h: map<nat, HuffSlot>, k: nat): (r: map<nat, HuffSlot>)
    requires k in h
    ensures r.Keys == h.Keys && forall i :: i in h ==> r[i].table == h[i].table
  {
    h[k := h[k].(sent := true)]
  }

  /** A component's tables are there and can be written. */
  predicate Writable(s: ScanInfo, h: Huffs, k: Component)
  {
    && (UsesDc(s) ==> k.dcTbl in h.dc && LegalTable(h.dc[k.dcTbl].table))
    && (UsesAc(s) ==> k.acTbl in h.ac && LegalTable(h.ac[k.acTbl].table))
  }

  /** The segments of a component's tables. */
  function TablesOf(s: ScanInfo, h: Huffs, k: Component): seq<byte>
    requires Writable(s, h, k)
  {
    (if UsesDc(s) then DhtSegment(k.dcTbl, false, h.dc[k.dcTbl]) else [])
    + (if UsesAc(s) then DhtSegment(k.acTbl, true, h.ac[k.acTbl]) else [])
  }

  /** The tables after a component's are written. */
  function SentFor(s: ScanInfo, h: Huffs, k: Component): (r: Huffs)
    requires (UsesDc(s) ==> k.dcTbl in h.dc) && (UsesAc(s) ==> k.acTbl in h.ac)
    ensures r.dc.Keys == h.dc.Keys && r.ac.Keys == h.ac.Keys
    ensures forall i :: i in h.dc ==> r.dc[i].table == h.dc[i].table
    ensures forall i :: i in h.ac ==> r.ac[i].table == h.ac[i].table
  {
    Huffs(if UsesDc(s) then SentIn(h.dc, k.dcTbl) else h.dc, if UsesAc(s) then SentIn(h.ac, k.acTbl) else h.ac)
  }

  /** The tables after those of the scan's first `n` components are written. */
  function AfterDhts(c: Settings, s: ScanInfo, h: Huffs, n: nat): (r: Huffs)
    requires ScanOf(c, s) && HaveHuff(c, s, h) && n <= |s.comps|
    ensures r.dc.Keys == h.dc.Keys && r.ac.Keys == h.ac.Keys
    ensures forall k :: k in h.dc ==> r.dc[k].table == h.dc[k].table
    ensures forall k :: k in h.ac ==> r.ac[k].table == h.ac[k].table
  {
    if n == 0 then h else SentFor(s, AfterDhts(c, s, h, n - 1), c.frame.comps[s.comps[n - 1]])
  }

  function DhtBytes(c: Settings, s: ScanInfo, h: Huffs, n: nat): seq<byte>
    requires ScanOf(c, s) && HaveHuff(c, s, h) && n <= |s.comps| && LegalHuff(h.dc) && LegalHuff(h.ac)
  {
    if n == 0 then []
    else
      DhtBytes(c, s, h, n - 1) + TablesOf(s, AfterDhts(c, s, h, n - 1), c.frame.comps[s.comps[n - 1]])
  }

  /** write_scan_header. */
  function ScanHeader(c: Settings, s: ScanInfo, h: Huffs, cond: Conditioning, restart: nat, last: nat): seq<byte>
    requires LegalSettings(c) && ScanOf(c, s) && LegalCond(cond)
    requires !c.arith ==> HaveHuff(c, s, h) && LegalHuff(h.dc) && LegalHuff(h.ac)
  {
    TablesFit(c, s);
    (if c.arith then DacSegment(c.frame.comps, s, cond) else DhtBytes(c, s, h, |s.comps|))
    + (if restart != last then Segment(DRI, DriBody(restart)) else [])
    + Segment(SOS, SosBody(c.frame.comps, s))
  }

  // -------------------------------------------------------------------- the writer

  class MarkerWriter {
    const c: Settings
    var cond: Conditioning
    var quant: map<nat, QuantSlot>
    var dc: map<nat, HuffSlot>
    var ac: map<nat, HuffSlot>
    var restartInterval: nat
    var lastRestartInterval: nat
    var out: seq<byte>

    ghost predicate Valid()
      reads `cond, `quant, `dc, `ac, `restartInterval
    {
      LegalSettings(c) && LegalQuant(quant) && LegalHuff(dc) && LegalHuff(ac) && LegalValues(cond)
        && restartInterval < 65536
    }

    constructor (c: Settings, cond: Conditioning, quant: map<nat, QuantSlot>, dc: map<nat, HuffSlot>,
                 ac: map<nat, HuffSlot>, restartInterval: nat)
      requires LegalSettings(c) && LegalQuant(quant) && LegalHuff(dc) && LegalHuff(ac) && LegalValues(cond)
      requires restartInterval < 65536
      ensures Valid() && out == [] && lastRestartInterval == 0 && this.c == c && this.cond == cond
      ensures this.quant == quant && this.dc == dc && this.ac == ac && this.restartInterval == restartInterval
    {
      this.c, this.cond, this.quant, this.dc, this.ac := c, cond, quant, dc, ac;
      this.restartInterval, lastRestartInterval, out := restartInterval, 0, [];
    }

    method EmitByte(v: int)
      modifies `out
      ensures out == old(out) + [ToByte(v)]
    {
      out := out + [ToByte(v)];
    }

    method EmitMarker(mark: byte)
      modifies `out
      ensures out == old(out) + [255, mark]
    {
      EmitByte(0xFF);
      EmitByte(mark);
    }

    method Emit2Bytes(v: nat)
      modifies `out
      ensures out == old(out) + Two(v)
    {
      EmitByte(v / 256);
      EmitByte(v);
    }

    /** emit_dqt: the precision used, or a missing table. */
    method EmitDqt(index: nat) returns (ok: bool, prec: nat)
      requires Valid() && index < 4
      modifies `out, `quant
      ensures Valid() && ok == (index in old(quant))
      ensures !ok ==> out == old(out) && quant == old(quant)
      ensures ok ==> |old(quant)[index].vals| == 64
      ensures ok ==> && prec == (if Wide(Written(c, old(quant)[index].vals)) then 1 else 0)
                     && out == old(out) + DqtSegment(c, index, old(quant)[index])
                     && quant == old(quant)[index := old(quant)[index].(sent := true)]
    {
      hide LegalSettings, LegalHuff, LegalValues, Wide, LegalQuant, LegalQuantSlot, DqtBody, Zigzagged, OrderOf,
        LegalOrders, IsInjective;
      if index !in quant {
        return false, 0;
      }
      var slot := quant[index];
      QuantStill(quant, index);
      SettingsOrders(c);
      var limSe := LimSe(c.blockSize);
      var order := OrderOf(c.orders, limSe + 1);
      prec := Precision(slot.vals, order, limSe + 1);
      if !slot.sent {
        EmitQuant(index, slot.vals, order, limSe, prec);
      }
      quant := quant[index := slot.(sent := true)];
      ok := true;
    }

    method EmitQuant(index: nat, vals: seq<nat>, order: seq<nat>, limSe: nat, prec: nat)
      requires |vals| == 64 && limSe < 64 && IsInjective(order, limSe + 1)
      requires prec == if Wide(Zigzagged(vals, order, limSe + 1)) then 1 else 0
      modifies `out
      ensures out == old(out) + Segment(DQT, DqtBody(index, Zigzagged(vals, order, limSe + 1)))
    {
      hide ValueBytes, ToByte, Zigzagged, Wide;
      EmitMarker(DQT);
      Emit2Bytes(if prec != 0 then limSe * 2 + 2 + 1 + 2 else limSe + 1 + 1 + 2);
      EmitByte(index + prec * 16);
      EmitValues(vals, order, limSe + 1, prec != 0);
      Segmented(old(out), DQT, [ToByte(index + prec * 16)], ValueBytes(prec != 0, Zigzagged(vals, order, limSe + 1)));
    }

    method EmitValues(vals: seq<nat>, order: seq<nat>, n: nat, wide: bool)
      requires |vals| == 64 && IsInjective(order, n)
      modifies `out
      ensures out == old(out) + ValueBytes(wide, Zigzagged(vals, order, n))
    {
      hide ValueBytes, ToByte;
      NoBytes(wide);
      for i := 0 to n
        invariant out == old(out) + ValueBytes(wide, Zigzagged(vals, order, i))
      {
        var qval := vals[order[i]];
        ghost var was := out;
        BytesSnoc(wide, Zigzagged(vals, order, i), qval);
        if wide {
          EmitByte(qval / 256);
        }
        EmitByte(qval);
        assert out == was + if wide then Two(qval) else [ToByte(qval)];
        Regroup(old(out), ValueBytes(wide, Zigzagged(vals, order, i)), if wide then Two(qval) else [ToByte(qval)]);
      }
    }

    /** emit_dht. */
    method EmitDht(index: nat, isAc: bool) returns (ok: bool)
      requires Valid() && index < 4
      modifies `out, `dc, `ac
      ensures Valid() && ok == (index in old(if isAc then ac else dc))
      ensures !ok ==> out == old(out) && dc == old(dc) && ac == old(ac)
      ensures ok ==> LegalTable(old(if isAc then ac else dc)[index].table)
      ensures ok ==> && out == old(out) + DhtSegment(index, isAc, old(if isAc then ac else dc)[index])
                     && dc == (if isAc then old(dc) else old(dc)[index := old(dc)[index].(sent := true)])
                     && ac == if isAc then old(ac)[index := old(ac)[index].(sent := true)] else old(ac)
    {
      hide LegalSettings, LegalQuant, LegalValues, LegalTable;
      if index !in (if isAc then ac else dc) {
        return false;
      }
      var slot := if isAc then ac[index] else dc[index];
      if !slot.sent {
        EmitTable(index + if isAc then 0x10 else 0, slot.table);
        DhtBodyIs(index, isAc, slot.table);
      }
      if isAc {
        ac := ac[index := slot.(sent := true)];
      } else {
        dc := dc[index := slot.(sent := true)];
      }
      ok := true;
    }

    method EmitTable(index: nat, t: Table)
      requires LegalTable(t)
      modifies `out
      ensures |t.bits| == 17 && Sum(t.bits[1..]) <= |t.vals|
      ensures out
           == old(out) + Segment(DHT, [ToByte(index)] + BytesOf(t.bits[1..]) + BytesOf(t.vals[..Sum(t.bits[1..])]))
    {
      hide BytesOf, ToByte, Sum, LegalTable;
      TableSizes(t);
      EmitMarker(DHT);
      var length := Total(t.bits);
      Emit2Bytes(length + 2 + 1 + 16);
      EmitByte(index);
      EmitAll(t.bits[1..]);
      EmitAll(t.vals[..length]);
      Segmented(old(out), DHT, [ToByte(index)] + BytesOf(t.bits[1..]), BytesOf(t.vals[..length]));
    }

    method EmitAll(vals: seq<nat>)
      modifies `out
      ensures out == old(out) + BytesOf(vals)
    {
      for i := 0 to |vals|
        invariant out == old(out) + BytesOf(vals[..i])
      {
        assert vals[..i + 1][..i] == vals[..i];
        EmitByte(vals[i]);
      }
      assert vals[..|vals|] == vals;
    }

    /** emit_dac: one segment for all tables that the scan uses. */
    method EmitDac(s: ScanInfo)
      requires Valid() && ScanOf(c, s)
      modifies `out
      ensures out == old(out) + DacSegment(c.frame.comps, s, cond)
    {
      hide LegalSettings, LegalQuant, LegalHuff, LegalValues, DacBody, ToByte, DcInUse, AcInUse, LegalQuantSlot;
      CondIs(cond);
      TablesFit(c, s);
      var comps := c.frame.comps;
      NoneInUse(comps, s);
      var dcInUse, acInUse := seq(16, i => false), seq(16, i => false);
      for i := 0 to |s.comps|
        invariant out == old(out)
        invariant dcInUse == DcInUse(comps, s, i) && acInUse == AcInUse(comps, s, i)
      {
        var compptr := comps[s.comps[i]];
        OneInUse(comps, s, i);
        if s.ss == 0 && s.ah == 0 {
          dcInUse := dcInUse[compptr.dcTbl := true];
        }
        if s.se != 0 {
          acInUse := acInUse[compptr.acTbl := true];
        }
      }
      var length := CountInUse(dcInUse, acInUse);
      BodySize(dcInUse, acInUse, cond, 0);
      if length != 0 {
        EmitMarker(DAC);
        Emit2Bytes(length * 2 + 2);
        EmitEntries(dcInUse, acInUse);
        Segmented(old(out), DAC, [], DacBody(dcInUse, acInUse, cond, 0));
        NoPrefix(old(out), DacBody(dcInUse, acInUse, cond, 0));
      }
    }

    method EmitEntries(dcInUse: seq<bool>, acInUse: seq<bool>)
      requires |dcInUse| == |acInUse| == 16 && LegalCond(cond)
      modifies `out
      ensures out == old(out) + DacBody(dcInUse, acInUse, cond, 0)
    {
      hide DacBody, ToByte;
      ghost var was := out;
      assert was + DacBody(dcInUse, acInUse, cond, 0) == old(out) + DacBody(dcInUse, acInUse, cond, 0);
      for i := 0 to 16
        invariant out + DacBody(dcInUse, acInUse, cond, i) == old(out) + DacBody(dcInUse, acInUse, cond, 0)
      {
        ghost var before := out;
        BodyIs(dcInUse, acInUse, cond, i);
        if dcInUse[i] {
          EmitByte(i);
          EmitByte(cond.dcL[i] + cond.dcU[i] * 16);
        }
        if acInUse[i] {
          EmitByte(i + 0x10);
          EmitByte(cond.acK[i]);
        }
        ghost var own := DcBytes(dcInUse[i], cond, i) + AcBytes(acInUse[i], cond, i);
        assert out == before + own;
        Regroup(before, own, DacBody(dcInUse, acInUse, cond, i + 1));
      }
      NoBody(dcInUse, acInUse, cond);
    }

    /** emit_dri. */
    method EmitDri()
      modifies `out
      ensures out == old(out) + Segment(DRI, DriBody(restartInterval))
    {
      hide ToByte;
      EmitMarker(DRI);
      Emit2Bytes(4);
      Emit2Bytes(restartInterval);
      Segmented(old(out), DRI, [], Two(restartInterval));
      NoPrefix(old(out), Two(restartInterval));
    }

    /** emit_sof: refused if the size does not fit, after the first four bytes. */
    method EmitSof(code: byte) returns (ok: bool)
      modifies `out
      ensures ok <==> c.frame.height <= 65535 && c.frame.width <= 65535
      ensures ok ==> out == old(out) + Segment(code, SofBody(c.frame))
      ensures !ok ==> old(out) <= out
    {
      hide ToByte, Two, CompBytes;
      EmitMarker(code);
      Emit2Bytes(3 * |c.frame.comps| + 2 + 5 + 1);
      if c.frame.height > 65535 || c.frame.width > 65535 {
        return false;
      }
      EmitByte(c.frame.precision);
      Emit2Bytes(c.frame.height);
      Emit2Bytes(c.frame.width);
      EmitByte(|c.frame.comps|);
      EmitComps();
      ghost var head := [ToByte(c.frame.precision)] + Two(c.frame.height) + Two(c.frame.width)
        + [ToByte(|c.frame.comps|)];
      Segmented(old(out), code, head, CompBytes(c.frame.comps));
      Pieces(old(out) + [255, code] + Two(3 * |c.frame.comps| + 2 + 5 + 1), [ToByte(c.frame.precision)],
             Two(c.frame.height), Two(c.frame.width), [ToByte(|c.frame.comps|)]);
      ok := true;
    }

    method EmitComps()
      modifies `out
      ensures out == old(out) + CompBytes(c.frame.comps)
    {
      hide ToByte;
      var comps := c.frame.comps;
      for ci := 0 to |comps|
        invariant out == old(out) + CompBytes(comps[..ci])
      {
        var compptr := comps[ci];
        assert comps[..ci + 1][..ci] == comps[..ci];
        EmitByte(compptr.id);
        EmitByte(compptr.h * 16 + compptr.v);
        EmitByte(compptr.tq);
      }
      assert comps[..|comps|] == comps;
    }

    /** emit_sos. */
    method EmitSos(s: ScanInfo)
      requires ScanOf(c, s)
      modifies `out
      ensures out == old(out) + Segment(SOS, SosBody(c.frame.comps, s))
    {
      hide ToByte, Two, SosCompBytes;
      EmitMarker(SOS);
      Emit2Bytes(2 * |s.comps| + 2 + 1 + 3);
      EmitByte(|s.comps|);
      EmitScanComps(s);
      EmitByte(s.ss);
      EmitByte(s.se);
      EmitByte(s.ah * 16 + s.al);
      ghost var head := [ToByte(|s.comps|)] + SosCompBytes(c.frame.comps, s, |s.comps|);
      ghost var tail := [ToByte(s.ss), ToByte(s.se), ToByte(s.ah * 16 + s.al)];
      Segmented(old(out), SOS, head, tail);
    }

    method EmitScanComps(s: ScanInfo)
      requires ScanOf(c, s)
      modifies `out
      ensures out == old(out) + SosCompBytes(c.frame.comps, s, |s.comps|)
    {
      hide ToByte;
      for i := 0 to |s.comps|
        invariant out == old(out) + SosCompBytes(c.frame.comps, s, i)
      {
        var compptr := c.frame.comps[s.comps[i]];
        EmitByte(compptr.id);
        var td := if s.ss == 0 && s.ah == 0 then compptr.dcTbl else 0;
        var ta := if s.se != 0 then compptr.acTbl else 0;
        EmitByte(td * 16 + ta);
      }
    }

    /** write_frame_header; refused for want of a table, or because the size does not fit or
        the color transform cannot be specified. */
    method WriteFrameHeader() returns (ok: bool)
      requires Valid()
      modifies `out, `quant
      ensures Valid()
      ensures ok <==> && HaveQuant(c, old(quant)) && c.frame.height <= 65535 && c.frame.width <= 65535
                      && Transformable(c)
      ensures ok ==> LegalQuant(old(quant)) && out == old(out) + FrameHeader(c, old(quant))
                     && quant == AfterDqts(c, old(quant), |c.frame.comps|)
    {
      hide *;
      ghost var q, was := quant, out;
      ValidParts();
      var prec;
      ok, prec := EmitDqts();
      if !ok {
        return;
      }
      var code := ChooseSof(prec, q);
      ok := EmitSof(code);
      if !ok {
        return;
      }
      if c.transform != 0 {
        ok := EmitLseIct();
        if !ok {
          return;
        }
      } else {
        NoLse(c, out);
      }
      if c.progressive && c.blockSize != 8 {
        EmitPseudoSos();
      } else {
        NoPseudo(c, out);
      }
      FrameIs(c, q, was);
    }

    /** emit_lse_ict; only one transform is supported. */
    method EmitLseIct() returns (ok: bool)
      requires c.transform != 0
      modifies `out
      ensures ok <==> Transformable(c)
      ensures ok ==> out == old(out) + LseSegment(c)
      ensures !ok ==> out == old(out)
    {
      hide Two, ToByte, Segment, Ids;
      if c.transform != JCT_SUBTRACT_GREEN || |c.frame.comps| < 3 {
        return false;
      }
      EmitMarker(LSE);
      Emit2Bytes(24);
      EmitByte(0x0D);
      Emit2Bytes(255);
      EmitByte(3);
      EmitByte(c.frame.comps[1].id);
      EmitByte(c.frame.comps[0].id);
      EmitByte(c.frame.comps[2].id);
      EmitByte(0x80);
      Emit2Bytes(0);
      Emit2Bytes(0);
      EmitByte(0);
      Emit2Bytes(1);
      Emit2Bytes(0);
      EmitByte(0);
      Emit2Bytes(1);
      Emit2Bytes(0);
      LseIs(old(out), c);
      ok := true;
    }

    /** emit_pseudo_sos. */
    method EmitPseudoSos()
      requires c.progressive && c.blockSize != 8
      modifies `out
      ensures out == old(out) + PseudoSos(c)
    {
      hide Two, ToByte, Segment;
      EmitMarker(SOS);
      Emit2Bytes(2 + 1 + 3);
      EmitByte(0);
      EmitByte(0);
      EmitByte(c.blockSize * c.blockSize - 1);
      EmitByte(0);
      PseudoIs(old(out), c);
    }

    lemma ValidParts()
      requires Valid()
      ensures LegalSettings(c) && LegalQuant(quant)
    {
    }

    /** write_scan_header; refused for want of a table. */
    method WriteScanHeader(s: ScanInfo) returns (ok: bool)
      requires Valid() && ScanOf(c, s)
      modifies `out, `dc, `ac, `lastRestartInterval
      ensures Valid() && LegalSettings(c) && LegalCond(cond) && LegalHuff(old(dc)) && LegalHuff(old(ac))
      ensures ok <==> c.arith || HaveHuff(c, s, old(Huffs(dc, ac)))
      ensures ok ==>
                && out == old(out)
                          + ScanHeader(c, s, old(Huffs(dc, ac)), cond, restartInterval, old(lastRestartInterval))
                && Huffs(dc, ac)
                   == (if c.arith then old(Huffs(dc, ac)) else AfterDhts(c, s, old(Huffs(dc, ac)), |s.comps|))
                && lastRestartInterval == restartInterval
    {
      hide LegalSettings, LegalQuant, LegalHuff, LegalValues, DhtBytes, AfterDhts, ToByte, DacSegment, Segment, SosBody,
        ScanOf, HaveHuff;
      TablesFit(c, s);
      CondIs(cond);
      ghost var was, h := out, Huffs(dc, ac);
      if c.arith {
        EmitDac(s);
      } else {
        ok := EmitDhts(s);
        if !ok {
          return;
        }
      }
      if restartInterval != lastRestartInterval {
        EmitDri();
        lastRestartInterval := restartInterval;
      } else {
        assert out + [] == out;
      }
      EmitSos(s);
      ok := true;
    }

    /** The Huffman tables of a scan. */
    method EmitDhts(s: ScanInfo) returns (ok: bool)
      requires Valid() && ScanOf(c, s) && !c.arith
      modifies `out, `dc, `ac
      ensures Valid() && LegalHuff(old(dc)) && LegalHuff(old(ac)) && (ok <==> HaveHuff(c, s, old(Huffs(dc, ac))))
      ensures ok ==> && out == old(out) + DhtBytes(c, s, old(Huffs(dc, ac)), |s.comps|)
                     && Huffs(dc, ac) == AfterDhts(c, s, old(Huffs(dc, ac)), |s.comps|)
    {
      hide LegalSettings, LegalQuant, LegalHuff, LegalValues, ToByte, DhtsDone, HaveHuff, ScanOf, LegalTable;
      ghost var h, was := Huffs(dc, ac), out;
      NoDhts(c, s, was, h);
      for i := 0 to |s.comps|
        invariant Valid() && DhtsDone(c, s, was, h, out, Huffs(dc, ac), i)
      {
        SettingsTables(c, s, i);
        var k := c.frame.comps[s.comps[i]];
        ghost var before, now := out, Huffs(dc, ac);
        if s.ss == 0 && s.ah == 0 {
          ok := EmitDht(k.dcTbl, false);
          if !ok {
            DhtMissing(c, s, was, h, before, now, i);
            return;
          }
        }
        ghost var mid, half := out, Huffs(dc, ac);
        if s.se != 0 {
          ok := EmitDht(k.acTbl, true);
          if !ok {
            DhtMissing(c, s, was, h, before, now, i);
            return;
          }
        }
        DhtsNext(c, s, was, h, before, now, mid, half, out, Huffs(dc, ac), i);
      }
      DhtsAll(c, s, was, h, out, Huffs(dc, ac));
      ok := true;
    }

    /** The tables of all components, and whether any needs 16-bit values. */
    method EmitDqts() returns (ok: bool, prec: nat)
      requires Valid()
      modifies `out, `quant
      ensures Valid() && (ok <==> HaveQuant(c, old(quant))) && LegalSettings(c) && LegalQuant(old(quant))
      ensures ok ==> && out == old(out) + DqtBytes(c, old(quant), |c.frame.comps|)
                     && quant == AfterDqts(c, old(quant), |c.frame.comps|)
                     && (prec != 0 <==> AnyWide(c, old(quant), |c.frame.comps|))
    {
      hide LegalSettings, LegalQuant, LegalHuff, LegalValues, ToByte, DqtsDone, HaveQuant;
      ghost var q, was := quant, out;
      prec := 0;
      NoDqts(c, was, q);
      for ci := 0 to |c.frame.comps|
        invariant Valid() && DqtsDone(c, was, q, out, quant, prec, ci)
      {
        SettingsTq(c, ci);
        ghost var before, slots := out, quant;
        var one, wide := EmitDqt(c.frame.comps[ci].tq);
        if !one {
          DqtMissing(c, was, q, before, slots, prec, ci);
          return false, 0;
        }
        DqtsNext(c, was, q, before, slots, prec, ci, wide);
        prec := prec + wide;
      }
      DqtsAll(c, was, q, out, quant, prec);
      ok := true;
    }

    method ChooseSof(prec: nat, ghost q: map<nat, QuantSlot>) returns (code: byte)
      requires LegalSettings(c) && LegalQuant(q) && HaveQuant(c, q) && (prec != 0 <==> AnyWide(c, q, |c.frame.comps|))
      ensures code == SofCode(c, q)
    {
      hide LegalSettings, LegalQuant, AnyWide;
      var isBaseline := false;
      if !(c.arith || c.progressive || c.frame.precision != 8 || c.blockSize != 8) {
        isBaseline := true;
        for ci := 0 to |c.frame.comps|
          invariant isBaseline <==> FewTables(c, ci)
        {
          if c.frame.comps[ci].dcTbl > 1 || c.frame.comps[ci].acTbl > 1 {
            isBaseline := false;
          }
        }
        if prec != 0 && isBaseline {
          isBaseline := false;
        }
      }
      if c.arith {
        code := if c.progressive then SOF10 else SOF9;
      } else {
        code := if c.progressive then SOF2 else if isBaseline then SOF0 else SOF1;
      }
    }
  }

  /** The scan's components are components of the frame. */
  predicate ScanOf(c: Settings, s: ScanInfo)
  {
    forall i :: 0 <= i < |s.comps| ==> s.comps[i] < |c.frame.comps|
  }

  lemma CondIs(cond: Conditioning)
    requires LegalValues(cond)
    ensures LegalCond(cond)
  {
  }

  lemma TablesFit(c: Settings, s: ScanInfo)
    requires LegalSettings(c)
    ensures forall i :: 0 <= i < |c.frame.comps| ==> c.frame.comps[i].dcTbl < 16 && c.frame.comps[i].acTbl < 16
  {
  }

  lemma NoneInUse(comps: seq<Component>, s: ScanInfo)
    requires forall i :: 0 <= i < |s.comps| ==> s.comps[i] < |comps|
    requires forall i :: 0 <= i < |comps| ==> comps[i].dcTbl < 16 && comps[i].acTbl < 16
    ensures DcInUse(comps, s, 0) == AcInUse(comps, s, 0) == seq(16, i => false)
  {
  }

  lemma OneInUse(comps: seq<Component>, s: ScanInfo, n: nat)
    requires n < |s.comps| && forall i :: 0 <= i < |s.comps| ==> s.comps[i] < |comps|
    requires forall i :: 0 <= i < |comps| ==> comps[i].dcTbl < 16 && comps[i].acTbl < 16
    ensures var k := comps[s.comps[n]];
            && DcInUse(comps, s, n + 1) == (if s.ss == 0 && s.ah == 0 then DcInUse(comps, s, n)[k.dcTbl := true]
                                            else DcInUse(comps, s, n))
            && AcInUse(comps, s, n + 1) == (if s.se != 0 then AcInUse(comps, s, n)[k.acTbl := true]
                                            else AcInUse(comps, s, n))
  {
  }

  method CountInUse(dcInUse: seq<bool>, acInUse: seq<bool>) returns (length: nat)
    requires |dcInUse| == |acInUse| == 16
    ensures length == Used(dcInUse, 0) + Used(acInUse, 0)
  {
    length := 0;
    for i := 0 to 16
      invariant length + Used(dcInUse, i) + Used(acInUse, i) == Used(dcInUse, 0) + Used(acInUse, 0)
    {
      length := length + (if dcInUse[i] then 1 else 0) + (if acInUse[i] then 1 else 0);
    }
  }

  lemma NoBody(dcInUse: seq<bool>, acInUse: seq<bool>, cond: Conditioning)
    requires |dcInUse| == |acInUse| == 16 && LegalCond(cond)
    ensures DacBody(dcInUse, acInUse, cond, 16) == []
  {
  }

  lemma NoPrefix(was: seq<byte>, b: seq<byte>)
    ensures [] + b == b
    ensures forall a: seq<byte> :: a + [] + b == a + b
  {
    forall a: seq<byte>
      ensures a + [] + b == a + b
    {
      assert a + [] == a;
    }
  }

  lemma Pieces(was: seq<byte>, a: seq<byte>, b: seq<byte>, d: seq<byte>, e: seq<byte>)
    ensures was + a + b + d + e == was + (a + b + d + e)
  {
  }

  method Precision(vals: seq<nat>, order: seq<nat>, n: nat) returns (prec: nat)
    requires |vals| == 64 && IsInjective(order, n)
    ensures prec == if Wide(Zigzagged(vals, order, n)) then 1 else 0
  {
    hide Wide;
    prec := 0;
    NotWide();
    for i := 0 to n
      invariant prec == if Wide(Zigzagged(vals, order, i)) then 1 else 0
    {
      WideSnoc(Zigzagged(vals, order, i), vals[order[i]]);
      if vals[order[i]] > 255 {
        prec := 1;
      }
    }
  }

  /** Codes of a table. */
  method Total(bits: seq<nat>) returns (length: nat)
    requires |bits| == 17
    ensures length == Sum(bits[1..])
  {
    length := 0;
    for i := 1 to 17
      invariant length == Sum(bits[1..i])
    {
      SumSnoc(bits[1..i], bits[i]);
      assert bits[1..i + 1] == bits[1..i] + [bits[i]];
      length := length + bits[i];
    }
    assert bits[1..17] == bits[1..];
  }

  lemma SettingsOrders(c: Settings)
    requires LegalSettings(c)
    ensures 1 <= c.blockSize <= 16 && LegalOrders(c.orders)
  {
  }

  lemma QuantStill(q: map<nat, QuantSlot>, index: nat)
    requires LegalQuant(q) && index in q
    ensures |q[index].vals| == 64 && LegalQuantSlot(q[index]) && LegalQuant(q[index := q[index].(sent := true)])
  {
    assert LegalQuantSlot(q[index]);
  }

  lemma SettingsTq(c: Settings, i: nat)
    requires LegalSettings(c) && i < |c.frame.comps|
    ensures c.frame.comps[i].tq < 4
  {
  }

  lemma LseIs(was: seq<byte>, c: Settings)
    requires c.transform == JCT_SUBTRACT_GREEN && |c.frame.comps| >= 3
    ensures var k := c.frame.comps;
      was + [255, LSE] + Two(24) + [ToByte(0x0D)] + Two(255) + [ToByte(3)] + [ToByte(k[1].id)] + [ToByte(k[0].id)]
      + [ToByte(k[2].id)] + [ToByte(0x80)] + Two(0) + Two(0) + [ToByte(0)] + Two(1) + Two(0) + [ToByte(0)] + Two(1)
      + Two(0)
      == was + LseSegment(c)
  {
    hide ToByte, Two, FieldBytes;
    var fs, base := LseFields(Ids(c.frame.comps)), was + [255, LSE] + Two(24);
    NoFields(base, fs);
    FieldNext(base, fs, 0);
    FieldNext(base, fs, 1);
    FieldNext(base, fs, 2);
    FieldNext(base, fs, 3);
    FieldNext(base, fs, 4);
    FieldNext(base, fs, 5);
    FieldNext(base, fs, 6);
    FieldNext(base, fs, 7);
    FieldNext(base, fs, 8);
    FieldNext(base, fs, 9);
    FieldNext(base, fs, 10);
    FieldNext(base, fs, 11);
    FieldNext(base, fs, 12);
    FieldNext(base, fs, 13);
    FieldNext(base, fs, 14);
    LseSize(Ids(c.frame.comps));
    Regroup(was, [255, LSE] + Two(24), FieldBytes(fs));
  }

  lemma NoFields(base: seq<byte>, fs: seq<Field>)
    ensures base == base + FieldBytes(fs[..0])
  {
  }

  lemma FieldNext(base: seq<byte>, fs: seq<Field>, i: nat)
    requires i < |fs|
    ensures (base + FieldBytes(fs[..i])) + OneField(fs[i]) == base + FieldBytes(fs[..i + 1])
  {
    FieldStep(fs, i);
  }

  lemma PseudoIs(was: seq<byte>, c: Settings)
    requires c.progressive && c.blockSize != 8
    ensures was + [255, SOS] + Two(6) + [ToByte(0)] + [ToByte(0)] + [ToByte(c.blockSize * c.blockSize - 1)]
            + [ToByte(0)]
         == was + PseudoSos(c)
  {
  }

  /** One more component's table. */
  lemma NextDqt(c: Settings, quant: map<nat, QuantSlot>, n: nat)
    requires LegalSettings(c) && LegalQuant(quant) && HaveQuant(c, quant) && n < |c.frame.comps|
    ensures var q, tq := AfterDqts(c, quant, n), c.frame.comps[n].tq;
            && |q[tq].vals| == 64 && q[tq].vals == quant[tq].vals
            && AfterDqts(c, quant, n + 1) == q[tq := q[tq].(sent := true)]
            && DqtBytes(c, quant, n + 1) == DqtBytes(c, quant, n) + DqtSegment(c, tq, q[tq])
            && (AnyWide(c, quant, n + 1) <==> AnyWide(c, quant, n) || Wide(Written(c, quant[tq].vals)))
  {
    hide LegalSettings, Wide;
    assert LegalQuantSlot(quant[c.frame.comps[n].tq]);
    assert WideAt(c, quant, n) == Wide(Written(c, quant[c.frame.comps[n].tq].vals));
  }

  /** The tables of the first `n` components are out. */
  ghost predicate DqtsDone(c: Settings, was: seq<byte>, q: map<nat, QuantSlot>, out: seq<byte>,
                           now: map<nat, QuantSlot>, prec: nat, n: nat)
  {
    && LegalSettings(c) && LegalQuant(q) && n <= |c.frame.comps| && now.Keys == q.Keys
    && (forall i :: 0 <= i < n ==> c.frame.comps[i].tq in q)
    && (HaveQuant(c, q) ==>
          && out == was + DqtBytes(c, q, n) && now == AfterDqts(c, q, n) && (prec != 0 <==> AnyWide(c, q, n)))
  }

  lemma NoDqts(c: Settings, was: seq<byte>, q: map<nat, QuantSlot>)
    requires LegalSettings(c) && LegalQuant(q)
    ensures DqtsDone(c, was, q, was, q, 0, 0)
  {
    hide LegalSettings, LegalQuant;
  }

  lemma DqtMissing(c: Settings, was: seq<byte>, q: map<nat, QuantSlot>, out: seq<byte>, now: map<nat, QuantSlot>,
                   prec: nat, n: nat)
    requires DqtsDone(c, was, q, out, now, prec, n) && n < |c.frame.comps| && c.frame.comps[n].tq !in now
    ensures !HaveQuant(c, q) && LegalQuant(q)
  {
  }

  lemma DqtsNext(c: Settings, was: seq<byte>, q: map<nat, QuantSlot>, out: seq<byte>, now: map<nat, QuantSlot>,
                 prec: nat, n: nat, wide: nat)
    requires DqtsDone(c, was, q, out, now, prec, n) && n < |c.frame.comps| && c.frame.comps[n].tq in now
    requires |now[c.frame.comps[n].tq].vals| == 64
    requires wide == if Wide(Written(c, now[c.frame.comps[n].tq].vals)) then 1 else 0
    ensures var tq := c.frame.comps[n].tq;
            DqtsDone(c, was, q, out + DqtSegment(c, tq, now[tq]), now[tq := now[tq].(sent := true)], prec + wide, n + 1)
  {
    hide LegalSettings, LegalQuant, DqtBytes, AfterDqts, AnyWide, Wide, Written;
    if HaveQuant(c, q) {
      var tq := c.frame.comps[n].tq;
      NextDqt(c, q, n);
      Regroup(was, DqtBytes(c, q, n), DqtSegment(c, tq, now[tq]));
    }
  }

  lemma DqtsAll(c: Settings, was: seq<byte>, q: map<nat, QuantSlot>, out: seq<byte>, now: map<nat, QuantSlot>,
                prec: nat)
    requires DqtsDone(c, was, q, out, now, prec, |c.frame.comps|)
    ensures HaveQuant(c, q) && LegalQuant(q) && LegalSettings(c)
    ensures out == was + DqtBytes(c, q, |c.frame.comps|) && now == AfterDqts(c, q, |c.frame.comps|)
    ensures prec != 0 <==> AnyWide(c, q, |c.frame.comps|)
  {
    hide LegalSettings, LegalQuant, DqtBytes, AfterDqts, AnyWide;
  }

  /** The tables of the scan's first `n` components are out. */
  ghost predicate DhtsDone(c: Settings, s: ScanInfo, was: seq<byte>, h: Huffs, out: seq<byte>, now: Huffs, n: nat)
  {
    && ScanOf(c, s) && LegalHuff(h.dc) && LegalHuff(h.ac) && n <= |s.comps|
    && now.dc.Keys == h.dc.Keys && now.ac.Keys == h.ac.Keys
    && (forall i :: 0 <= i < n ==>
          && (UsesDc(s) ==> c.frame.comps[s.comps[i]].dcTbl in h.dc)
          && (UsesAc(s) ==> c.frame.comps[s.comps[i]].acTbl in h.ac))
    && (HaveHuff(c, s, h) ==> out == was + DhtBytes(c, s, h, n) && now == AfterDhts(c, s, h, n))
  }

  lemma NoDhts(c: Settings, s: ScanInfo, was: seq<byte>, h: Huffs)
    requires ScanOf(c, s) && LegalHuff(h.dc) && LegalHuff(h.ac)
    ensures DhtsDone(c, s, was, h, was, h, 0)
  {
    hide LegalHuff;
  }

  lemma SettingsTables(c: Settings, s: ScanInfo, i: nat)
    requires LegalSettings(c) && ScanOf(c, s) && i < |s.comps|
    ensures s.comps[i] < |c.frame.comps|
    ensures !c.arith ==> c.frame.comps[s.comps[i]].dcTbl < 4 && c.frame.comps[s.comps[i]].acTbl < 4
  {
  }

  lemma DhtMissing(c: Settings, s: ScanInfo, was: seq<byte>, h: Huffs, out: seq<byte>, now: Huffs, n: nat)
    requires DhtsDone(c, s, was, h, out, now, n) && n < |s.comps|
    requires || (UsesDc(s) && c.frame.comps[s.comps[n]].dcTbl !in now.dc)
             || (UsesAc(s) && c.frame.comps[s.comps[n]].acTbl !in now.ac)
    ensures LegalHuff(h.dc) && LegalHuff(h.ac) && !HaveHuff(c, s, h)
  {
  }

  lemma NextDht(c: Settings, s: ScanInfo, h: Huffs, n: nat)
    requires ScanOf(c, s) && HaveHuff(c, s, h) && n < |s.comps| && LegalHuff(h.dc) && LegalHuff(h.ac)
    ensures var g, k := AfterDhts(c, s, h, n), c.frame.comps[s.comps[n]];
            && Writable(s, g, k) && AfterDhts(c, s, h, n + 1) == SentFor(s, g, k)
            && DhtBytes(c, s, h, n + 1) == DhtBytes(c, s, h, n) + TablesOf(s, g, k)
  {
    hide LegalTable, TablesOf, SentFor;
  }

  /** One more component's tables. */
  lemma DhtsNext(c: Settings, s: ScanInfo, was: seq<byte>, h: Huffs, out: seq<byte>, now: Huffs,
                 mid: seq<byte>, half: Huffs, end: seq<byte>, next: Huffs, n: nat)
    requires DhtsDone(c, s, was, h, out, now, n) && n < |s.comps|
    requires var k := c.frame.comps[s.comps[n]].dcTbl;
             if UsesDc(s) then && k in now.dc && LegalTable(now.dc[k].table) && half == Huffs(SentIn(now.dc, k), now.ac)
                               && mid == out + DhtSegment(k, false, now.dc[k])
             else half == now && mid == out
    requires var k := c.frame.comps[s.comps[n]].acTbl;
             if UsesAc(s) then && k in half.ac && LegalTable(half.ac[k].table)
               && next == Huffs(half.dc, SentIn(half.ac, k))
                               && end == mid + DhtSegment(k, true, half.ac[k])
             else next == half && end == mid
    ensures DhtsDone(c, s, was, h, end, next, n + 1)
  {
    hide LegalHuff, LegalTable, DhtSegment, DhtBytes, AfterDhts;
    if HaveHuff(c, s, h) {
      NextDht(c, s, h, n);
      var k := c.frame.comps[s.comps[n]];
      assert end == out + TablesOf(s, now, k);
      Regroup(was, DhtBytes(c, s, h, n), TablesOf(s, now, k));
    }
  }

  lemma DhtsAll(c: Settings, s: ScanInfo, was: seq<byte>, h: Huffs, out: seq<byte>, now: Huffs)
    requires DhtsDone(c, s, was, h, out, now, |s.comps|)
    ensures ScanOf(c, s) && HaveHuff(c, s, h) && LegalHuff(h.dc) && LegalHuff(h.ac)
    ensures out == was + DhtBytes(c, s, h, |s.comps|) && now == AfterDhts(c, s, h, |s.comps|)
  {
    hide LegalHuff, DhtBytes, AfterDhts;
  }

  lemma NoPseudo(c: Settings, was: seq<byte>)
    requires !(c.progressive && c.blockSize != 8)
    ensures was + PseudoSos(c) == was
  {
  }

  lemma NoLse(c: Settings, was: seq<byte>)
    requires c.transform == 0
    ensures Transformable(c) && was + LseSegment(c) == was
  {
  }

  lemma FrameIs(c: Settings, q: map<nat, QuantSlot>, was: seq<byte>)
    requires LegalSettings(c) && LegalQuant(q) && HaveQuant(c, q) && Transformable(c)
    ensures was + DqtBytes(c, q, |c.frame.comps|) + Segment(SofCode(c, q), SofBody(c.frame)) + LseSegment(c)
            + PseudoSos(c)
         == was + FrameHeader(c, q)
  {
    hide LegalSettings, LegalQuant, DqtBytes, SofCode, SofBody, PseudoSos, LseSegment, Segment;
  }

  lemma NotWide()
    ensures !Wide([])
  {
  }

  lemma NoBytes(wide: bool)
    ensures ValueBytes(wide, []) == []
  {
  }

  lemma TableSizes(t: Table)
    requires LegalTable(t)
    ensures WellFormed(t) && |t.bits| == 17 && |t.vals| == 256 && Sum(t.bits[1..]) <= 256
  {
  }

  lemma DhtBodyIs(index: nat, ac: bool, t: Table)
    requires LegalTable(t)
    ensures |t.bits| == 17 && Sum(t.bits[1..]) <= |t.vals|
    ensures DhtBody(index, ac, t)
         == [ToByte(index + if ac then 16 else 0)] + BytesOf(t.bits[1..]) + BytesOf(t.vals[..Sum(t.bits[1..])])
  {
  }

  /** What was emitted piece by piece is a segment, if the length field was right. */
  lemma Segmented(was: seq<byte>, marker: byte, a: seq<byte>, b: seq<byte>)
    ensures was + [255, marker] + Two(|a| + |b| + 2) + a + b == was + Segment(marker, a + b)
  {
  }

  lemma WideSnoc(front: seq<nat>, v: nat)
    ensures Wide(front + [v]) <==> Wide(front) || v > 255
  {
    var all := front + [v];
    if v > 255 {
      assert all[|front|] > 255;
    }
    if Wide(front) {
      var i :| 0 <= i < |front| && front[i] > 255;
      assert all[i] > 255;
    }
  }

  lemma SumSnoc(front: seq<nat>, v: nat)
    ensures Sum(front + [v]) == Sum(front) + v
  {
    assert (front + [v])[..|front|] == front;
  }
}
