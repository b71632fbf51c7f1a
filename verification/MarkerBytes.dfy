/** Marker segments byte by byte, with the numbers of T.81 Tables B.1 to B.6, and what the two
    header writers of jcmarker.c write at which place. */
module MarkerBytes {
  import opened Bytes
  import opened ArithScan
  import opened MarkerFormat
  import opened MarkerRoundTrip
  import opened MarkerWriting

  // ------------------------------------------------------------------- layouts

  /** Two bytes, the high one first. */
  function Number(src: seq<byte>, p: nat): nat
    requires p + 2 <= |src|
  {
    var hi: nat, lo: nat := src[p], src[p + 1];
    256 * hi + lo
  }

  /** Marker `m` with `size` bytes of parameters, and its length, which counts two bytes more. */
  predicate Starts(src: seq<byte>, p: nat, m: byte, size: nat)
  {
    p + 4 + size <= |src| && src[p] == 0xFF && src[p + 1] == m && Number(src, p + 2) == size + 2
  }

  function QuantSize(wide: bool, n: nat): nat
  {
    if wide then 2 * n else n
  }

  /** DQT: precision and table number, and the values in one byte each or in two. */
  predicate DqtLayout(src: seq<byte>, p: nat, tq: nat, wide: bool, vals: seq<nat>)
  {
    && Starts(src, p, 0xDB, 1 + QuantSize(wide, |vals|))
    && src[p + 4] as int == (if wide then 16 else 0) + tq
    && forall k :: 0 <= k < |vals| ==> vals[k] == if wide then Number(src, p + 5 + 2 * k) else src[p + 5 + k]
  }

  /** The symbols of a Huffman table with these numbers of codes. */
  function CodeCount(b: seq<nat>): nat
    requires |b| == 16
  {
    b[0] + b[1] + b[2] + b[3] + b[4] + b[5] + b[6] + b[7]
    + b[8] + b[9] + b[10] + b[11] + b[12] + b[13] + b[14] + b[15]
  }

  /** DHT: table class and number, the numbers of codes of lengths 1 to 16, and the symbols. */
  predicate DhtLayout(src: seq<byte>, p: nat, ac: bool, th: nat, bits: seq<nat>, vals: seq<nat>)
  {
    && |bits| == 16 && |vals| == CodeCount(bits) && Starts(src, p, 0xC4, 17 + |vals|)
    && src[p + 4] as int == (if ac then 16 else 0) + th
    && (forall i :: 0 <= i < 16 ==> bits[i] == src[p + 5 + i])
    && forall j :: 0 <= j < |vals| ==> vals[j] == src[p + 21 + j]
  }

  /** DAC: table numbers, AC tables from 16 on, each with its value. */
  predicate DacLayout(src: seq<byte>, p: nat, entries: seq<(nat, nat)>)
  {
    && Starts(src, p, 0xCC, 2 * |entries|)
    && forall k :: 0 <= k < |entries| ==> entries[k] == (src[p + 4 + 2 * k] as nat, src[p + 5 + 2 * k] as nat)
  }

  /** DRI: the interval. */
  predicate DriLayout(src: seq<byte>, p: nat, interval: nat)
  {
    Starts(src, p, 0xDD, 2) && Number(src, p + 4) == interval
  }

  /** SOF: precision, height, width, number of components; identifier, sampling factors and
      quantization table of each of them. */
  predicate SofLayout(src: seq<byte>, p: nat, m: byte, f: FrameInfo)
  {
    && Starts(src, p, m, 6 + 3 * |f.comps|)
    && src[p + 4] as nat == f.precision && Number(src, p + 5) == f.height && Number(src, p + 7) == f.width
    && src[p + 9] as nat == |f.comps|
    && forall i :: 0 <= i < |f.comps| ==>
         && src[p + 10 + 3 * i] as nat == f.comps[i].id
         && src[p + 11 + 3 * i] as nat == 16 * f.comps[i].h + f.comps[i].v
         && src[p + 12 + 3 * i] as nat == f.comps[i].tq
  }

  /** SOS: number of components; identifier and table numbers of each of them; first and last
      coefficient, and bit positions. */
  predicate SosLayout(src: seq<byte>, p: nat, specs: seq<(nat, nat, nat)>, ss: nat, se: nat, ah: nat, al: nat)
  {
    var q := p + 5 + 2 * |specs|;
    && Starts(src, p, 0xDA, 4 + 2 * |specs|) && src[p + 4] as nat == |specs|
    && (forall i :: 0 <= i < |specs| ==>
          && src[p + 5 + 2 * i] as nat == specs[i].0
          && src[p + 6 + 2 * i] as nat == 16 * specs[i].1 + specs[i].2)
    && src[q] as nat == ss && src[q + 1] as nat == se && src[q + 2] as nat == 16 * ah + al
  }

  // ------------------------------------------------------------------- segments

  lemma NumberIs(src: seq<byte>, p: nat, v: nat)
    requires Has(src, p, Two(v)) && v < 65536
    ensures p + 2 <= |src| && Number(src, p) == v
  {
    HasTwo(src, p, v);
  }

  lemma SegmentStarts(src: seq<byte>, p: nat, m: byte, body: seq<byte>)
    requires Has(src, p, Segment(m, body)) && |body| + 2 < 65536
    ensures Starts(src, p, m, |body|) && Has(src, p + 4, body)
  {
    hide Has, Two, Number;
    var all := [255, m] + (Two(|body| + 2) + body);
    assert Segment(m, body) == all;
    HasSize(src, p, all);
    HasSplit(src, p, [255, m], Two(|body| + 2) + body);
    HasPair(src, p, 255, m);
    HasSplit(src, p + 2, Two(|body| + 2), body);
    NumberIs(src, p + 2, |body| + 2);
  }

  /** How many coefficients blocks have, and the order their values are written in. */
  function CountOf(c: Settings): nat
  {
    if c.blockSize < 8 then c.blockSize * c.blockSize else 64
  }

  function ZigzagOf(c: Settings): seq<nat>
    requires LegalSettings(c)
  {
    if 2 <= c.blockSize < 8 then c.orders.small[c.blockSize] else c.orders.full
  }

  /** The values of a table that are written, in zigzag order. */
  function InOrder(c: Settings, vals: seq<nat>): (r: seq<nat>)
    requires LegalSettings(c) && |vals| == 64
    ensures |r| == CountOf(c)
    ensures IsInjective(ZigzagOf(c), CountOf(c))
    ensures forall k :: 0 <= k < |r| ==> r[k] == vals[ZigzagOf(c)[k]]
  {
    CountSmall(c);
    seq(CountOf(c), k requires 0 <= k < CountOf(c) => vals[ZigzagOf(c)[k]])
  }

  lemma CountSmall(c: Settings)
    requires LegalSettings(c)
    ensures CountOf(c) <= 64 && CountOf(c) == LimSe(c.blockSize) + 1
    ensures OrderOf(c.orders, CountOf(c)) == ZigzagOf(c) && IsInjective(ZigzagOf(c), CountOf(c))
  {
    var b := c.blockSize;
    assert b < 8 ==> b == 1 || b == 2 || b == 3 || b == 4 || b == 5 || b == 6 || b == 7;
  }

  lemma WrittenInOrder(c: Settings, vals: seq<nat>)
    requires LegalSettings(c) && |vals| == 64
    ensures Written(c, vals) == InOrder(c, vals)
  {
    CountSmall(c);
    hide OrderOf, LegalSettings, LimSe, CountOf, ZigzagOf, IsInjective;
    var w, r := Written(c, vals), InOrder(c, vals);
    assert |w| == |r|;
    assert forall k :: 0 <= k < |w| ==> w[k] == r[k];
  }

  predicate AnyAbove(vals: seq<nat>)
  {
    exists k :: 0 <= k < |vals| && vals[k] > 0xFF
  }

  /** A quantization table is written with two bytes a value if a value needs them. */
  lemma DqtSpelled(src: seq<byte>, p: nat, c: Settings, index: nat, slot: QuantSlot)
    requires LegalSettings(c) && LegalQuantSlot(slot) && index < 4 && !slot.sent
    requires Has(src, p, DqtSegment(c, index, slot))
    ensures DqtLayout(src, p, index, AnyAbove(InOrder(c, slot.vals)), InOrder(c, slot.vals))
    ensures |DqtSegment(c, index, slot)| == 5 + QuantSize(AnyAbove(InOrder(c, slot.vals)), CountOf(c))
  {
    hide Has, LegalSettings, ValueBytes, InOrder, Written, Values, Number, IsInjective, ZigzagOf, CountOf, OrderOf,
      LegalOrders;
    WrittenInOrder(c, slot.vals);
    CountSmall(c);
    var vals := InOrder(c, slot.vals);
    var wide := Wide(vals);
    var head := [ToByte(index + if wide then 16 else 0)];
    SegmentStarts(src, p, 0xDB, head + ValueBytes(wide, vals));
    HasSplit(src, p + 4, head, ValueBytes(wide, vals));
    HasByte(src, p + 4, head[0]);
    SmallValues(c, slot.vals);
    if !wide { Narrow(vals); }
    ValuesRead(src, p + 5, wide, vals);
    ValuesAt(src, p + 5, wide, vals);
  }

  lemma SmallValues(c: Settings, vals: seq<nat>)
    requires LegalSettings(c) && |vals| == 64 && forall i :: 0 <= i < 64 ==> vals[i] < 65536
    ensures forall k :: 0 <= k < CountOf(c) ==> InOrder(c, vals)[k] < 65536
  {
    hide LegalSettings, CountOf, ZigzagOf;
    CountSmall(c);
  }

  lemma ValuesAt(src: seq<byte>, p: nat, wide: bool, vals: seq<nat>)
    requires p + (if wide then 2 * |vals| else |vals|) <= |src| && Values(src, p, wide, |vals|) == vals
    ensures forall k :: 0 <= k < |vals| ==> vals[k] == if wide then Number(src, p + 2 * k) else src[p + k]
  {
    var r := Values(src, p, wide, |vals|);
    assert forall k :: 0 <= k < |vals| ==> vals[k] == r[k];
  }

  lemma SumStep(b: seq<nat>, k: nat)
    requires k < |b|
    ensures Sum(b[..k + 1]) == Sum(b[..k]) + b[k]
  {
    assert b[..k + 1][..k] == b[..k];
  }

  lemma FourMore(b: seq<nat>, k: nat)
    requires k + 4 <= |b|
    ensures Sum(b[..k + 4]) == Sum(b[..k]) + b[k] + b[k + 1] + b[k + 2] + b[k + 3]
  {
    hide Sum;
    SumStep(b, k);
    SumStep(b, k + 1);
    SumStep(b, k + 2);
    SumStep(b, k + 3);
  }

  lemma SumIsCount(b: seq<nat>)
    requires |b| == 16
    ensures Sum(b) == CodeCount(b)
  {
    hide Sum;
    assert Sum(b[..0]) == 0 by { NoSum(b); }
    FourMore(b, 0);
    FourMore(b, 4);
    FourMore(b, 8);
    FourMore(b, 12);
    assert b[..16] == b;
  }

  lemma NoSum(b: seq<nat>)
    ensures Sum(b[..0]) == 0
  {
  }

  /** A Huffman table is written with the symbols that have codes. */
  lemma DhtSpelled(src: seq<byte>, p: nat, index: nat, ac: bool, slot: HuffSlot)
    requires LegalTable(slot.table) && index < 4 && !slot.sent && Has(src, p, DhtSegment(index, ac, slot))
    ensures var bits := slot.table.bits[1..];
      && CodeCount(bits) <= 256 && DhtLayout(src, p, ac, index, bits, slot.table.vals[..CodeCount(bits)])
      && |DhtSegment(index, ac, slot)| == 21 + CodeCount(bits)
  {
    hide Has, Sum, BytesOf, Number, CodeCount;
    var t := slot.table;
    var bits := t.bits[1..];
    SumIsCount(bits);
    var vals := t.vals[..CodeCount(bits)];
    var head := [ToByte(index + if ac then 16 else 0)];
    SegmentStarts(src, p, 0xC4, head + BytesOf(bits) + BytesOf(vals));
    HasSplit(src, p + 4, head + BytesOf(bits), BytesOf(vals));
    HasSplit(src, p + 4, head, BytesOf(bits));
    HasByte(src, p + 4, head[0]);
    BytesAt(src, p + 5, bits);
    BytesAt(src, p + 21, vals);
  }

  lemma BytesAt(src: seq<byte>, p: nat, vals: seq<nat>)
    requires Has(src, p, BytesOf(vals)) && forall i :: 0 <= i < |vals| ==> vals[i] < 256
    ensures p + |vals| <= |src| && forall i :: 0 <= i < |vals| ==> vals[i] == src[p + i]
  {
    hide BytesOf;
    forall i | 0 <= i < |vals|
      ensures p + i < |src| && vals[i] == src[p + i]
    {
      HasAt(src, p, BytesOf(vals), i);
      ByteIs(vals[i]);
    }
  }

  /** The restart interval. */
  lemma DriSpelled(src: seq<byte>, p: nat, interval: nat)
    requires interval < 65536 && Has(src, p, Segment(DRI, DriBody(interval)))
    ensures DriLayout(src, p, interval) && |Segment(DRI, DriBody(interval))| == 6
  {
    hide Has, Number;
    SegmentStarts(src, p, 0xDD, DriBody(interval));
    NumberIs(src, p + 4, interval);
  }

  /** The frame parameters. */
  lemma SofSpelled(src: seq<byte>, p: nat, m: byte, f: FrameInfo)
    requires LegalFrame(f) && Has(src, p, Segment(m, SofBody(f)))
    ensures SofLayout(src, p, m, f) && |Segment(m, SofBody(f))| == 10 + 3 * |f.comps|
  {
    hide Has, CompBytes, Two, ToByte, Distinct;
    SegmentStarts(src, p, m, SofBody(f));
    SofHeader(src, p + 4, f);
    forall i | 0 <= i < |f.comps|
      ensures && src[p + 10 + 3 * i] as nat == f.comps[i].id
              && src[p + 11 + 3 * i] as nat == 16 * f.comps[i].h + f.comps[i].v
              && src[p + 12 + 3 * i] as nat == f.comps[i].tq
    {
      CompAt(src, p + 10, f.comps, i);
      CompRead(src, p + 10 + 3 * i, f.comps[i]);
    }
  }

  /** The values of component `i`'s table that are written need two bytes. */
  predicate TableAbove(c: Settings, q: map<nat, QuantSlot>, i: nat)
    requires LegalSettings(c) && LegalQuant(q) && HaveQuant(c, q) && i < |c.frame.comps|
  {
    assert LegalQuantSlot(q[c.frame.comps[i].tq]);
    AnyAbove(InOrder(c, q[c.frame.comps[i].tq].vals))
  }

  /** The marker of the coding process: 0xC9 and 0xCA for arithmetic coding, 0xC2 for progressive
      Huffman coding, and for sequential Huffman coding 0xC0 if samples and quantization values have
      eight bits, blocks are 8x8, and tables 0 and 1 suffice, else 0xC1. */
  lemma SofCodeSpelled(c: Settings, q: map<nat, QuantSlot>)
    requires LegalSettings(c) && LegalQuant(q) && HaveQuant(c, q)
    ensures c.arith ==> SofCode(c, q) as int == if c.progressive then 0xCA else 0xC9
    ensures !c.arith && c.progressive ==> SofCode(c, q) == 0xC2
    ensures !c.arith && !c.progressive ==> SofCode(c, q) == 0xC0 || SofCode(c, q) == 0xC1
    ensures SofCode(c, q) == 0xC0 <==>
      && !c.arith && !c.progressive && c.frame.precision == 8 && c.blockSize == 8
      && forall i :: 0 <= i < |c.frame.comps| ==>
           c.frame.comps[i].dcTbl < 2 && c.frame.comps[i].acTbl < 2 && !TableAbove(c, q, i)
  {
    hide LegalSettings, LegalQuantSlot, Written, InOrder, Wide, AnyAbove;
    forall i | 0 <= i < |c.frame.comps|
      ensures WideAt(c, q, i) <==> TableAbove(c, q, i)
    {
      WideIs(c, q, i);
    }
  }

  lemma WideIs(c: Settings, q: map<nat, QuantSlot>, i: nat)
    requires LegalSettings(c) && LegalQuant(q) && HaveQuant(c, q) && i < |c.frame.comps|
    ensures WideAt(c, q, i) <==> TableAbove(c, q, i)
  {
    hide LegalSettings, Written, InOrder;
    assert LegalQuantSlot(q[c.frame.comps[i].tq]);
    WrittenInOrder(c, q[c.frame.comps[i].tq].vals);
  }

  /** The scan's components: identifiers and table numbers, 0 for tables that are not used. */
  function Specs(comps: seq<Component>, s: ScanInfo): (r: seq<(nat, nat, nat)>)
    requires forall i :: 0 <= i < |s.comps| ==> s.comps[i] < |comps|
    ensures |r| == |s.comps|
    ensures forall i :: 0 <= i < |r| ==>
      var c := comps[s.comps[i]];
      r[i] == (c.id, if s.ss == 0 && s.ah == 0 then c.dcTbl else 0, if s.se != 0 then c.acTbl else 0)
  {
    seq(|s.comps|, i requires 0 <= i < |s.comps| =>
          var c := comps[s.comps[i]];
          (c.id, if s.ss == 0 && s.ah == 0 then c.dcTbl else 0, if s.se != 0 then c.acTbl else 0))
  }

  /** The scan parameters. */
  lemma SosSpelled(src: seq<byte>, p: nat, comps: seq<Component>, s: ScanInfo)
    requires LegalScan(comps, s) && Has(src, p, Segment(SOS, SosBody(comps, s)))
    ensures SosLayout(src, p, Specs(comps, s), s.ss, s.se, s.ah, s.al)
    ensures |Segment(SOS, SosBody(comps, s))| == 8 + 2 * |s.comps|
  {
    hide Has, SosCompBytes, Two, Distinct, TableByte, Ids;
    SegmentStarts(src, p, 0xDA, SosBody(comps, s));
    SosAround(src, p + 4, comps, s);
    forall i | 0 <= i < |s.comps|
      ensures src[p + 5 + 2 * i] as nat == Specs(comps, s)[i].0
      ensures src[p + 6 + 2 * i] as nat == 16 * Specs(comps, s)[i].1 + Specs(comps, s)[i].2
    {
      var k := comps[s.comps[i]];
      SosCompAt(src, p + 5, comps, s, |s.comps|, i);
      HasPair(src, p + 5 + 2 * i, ToByte(k.id), TableByte(k, s));
      ByteIs(k.id);
      TableByteIs(k, s);
    }
  }

  /** The color transform: 24 bytes with their length. */
  lemma LseSpelled(c: Settings)
    requires Transformable(c) && c.transform != 0
    requires c.frame.comps[0].id < 256 && c.frame.comps[1].id < 256 && c.frame.comps[2].id < 256
    ensures LseSegment(c)
         == [0xFF, 0xF8, 0, 24, 0x0D, 0, 255, 3, c.frame.comps[1].id, c.frame.comps[0].id, c.frame.comps[2].id,
             0x80, 0, 0, 0, 0, 0, 0, 1, 0, 0, 0, 0, 1, 0, 0]
  {
    hide LseSegment;
    LseIs([], c);
    var k := c.frame.comps;
    LseBytes(k[1].id, k[0].id, k[2].id);
    assert [] + LseSegment(c) == LseSegment(c);
    assert [] + [255, LSE] == [255, LSE];
  }

  lemma LseBytes(x: nat, y: nat, z: nat)
    requires x < 256 && y < 256 && z < 256
    ensures [255, LSE] + Two(24) + [ToByte(0x0D)] + Two(255) + [ToByte(3)] + [ToByte(x)] + [ToByte(y)] + [ToByte(z)]
            + [ToByte(0x80)] + Two(0) + Two(0) + [ToByte(0)] + Two(1) + Two(0) + [ToByte(0)] + Two(1) + Two(0)
         == [0xFF, 0xF8, 0, 24, 0x0D, 0, 255, 3, x, y, z, 0x80, 0, 0, 0, 0, 0, 0, 1, 0, 0, 0, 0, 1, 0, 0]
  {
    ByteIs(x);
    ByteIs(y);
    ByteIs(z);
    assert Two(24) == [0, 24] && Two(255) == [0, 255] && Two(0) == [0, 0] && Two(1) == [0, 1];
  }

  /** The marker that gives the block size. */
  lemma PseudoSpelled(c: Settings)
    requires LegalSettings(c) && c.progressive && c.blockSize != 8
    ensures 0 <= c.blockSize * c.blockSize - 1 < 256
    ensures PseudoSos(c) == [0xFF, 0xDA, 0, 6, 0, 0, (c.blockSize * c.blockSize - 1) as byte, 0]
  {
    var b := c.blockSize;
    assert b * b <= 16 * b;
  }

  // ------------------------------------------------------------ conditioning values

  /** The order of the tables: each DC table before the AC table with the same number. */
  function Rank(table: nat): nat
  {
    if table < 16 then 2 * table else 2 * (table - 16) + 1
  }

  function DcEntryOf(c: Conditioning, i: nat): (nat, nat)
    requires LegalCond(c) && i < 16
  {
    (i, c.dcL[i] + 16 * c.dcU[i])
  }

  function AcEntryOf(c: Conditioning, i: nat): (nat, nat)
    requires LegalCond(c) && i < 16
  {
    (i + 16, c.acK[i])
  }

  /** A table from number `from` on that is in use, with its values. */
  predicate Proper(e: (nat, nat), dc: seq<bool>, ac: seq<bool>, c: Conditioning, from: nat)
    requires LegalCond(c) && |dc| == |ac| == 16
  {
    && e.0 < 32 && from <= e.0 % 16
    && if e.0 < 16 then dc[e.0] && e == DcEntryOf(c, e.0) else ac[e.0 - 16] && e == AcEntryOf(c, e.0 - 16)
  }

  predicate Ordered(entries: seq<(nat, nat)>)
  {
    forall k, l :: 0 <= k < l < |entries| ==> Rank(entries[k].0) < Rank(entries[l].0)
  }

  predicate HasAll(entries: seq<(nat, nat)>, dc: seq<bool>, ac: seq<bool>, c: Conditioning, from: nat)
    requires LegalCond(c) && |dc| == |ac| == 16
  {
    && (forall i :: from <= i < 16 && dc[i] ==> DcEntryOf(c, i) in entries)
    && forall i :: from <= i < 16 && ac[i] ==> AcEntryOf(c, i) in entries
  }

  /** In order, the tables from `from` on that are in use, with their values, and no others. */
  ghost predicate Listed(entries: seq<(nat, nat)>, dc: seq<bool>, ac: seq<bool>, c: Conditioning, from: nat)
    requires LegalCond(c) && |dc| == |ac| == 16
  {
    && Ordered(entries) && HasAll(entries, dc, ac, c, from)
    && forall k :: 0 <= k < |entries| ==> Proper(entries[k], dc, ac, c, from)
  }

  ghost predicate EntriesAt(src: seq<byte>, p: nat, entries: seq<(nat, nat)>)
  {
    && p + 2 * |entries| <= |src|
    && forall k :: 0 <= k < |entries| ==> entries[k] == (src[p + 2 * k] as nat, src[p + 1 + 2 * k] as nat)
  }

  lemma EntriesJoin(src: seq<byte>, p: nat, a: seq<(nat, nat)>, b: seq<(nat, nat)>)
    requires EntriesAt(src, p, a) && EntriesAt(src, p + 2 * |a|, b)
    ensures EntriesAt(src, p, a + b)
  {
    forall k | 0 <= k < |a + b|
      ensures (a + b)[k] == (src[p + 2 * k] as nat, src[p + 1 + 2 * k] as nat)
    {
      if |a| <= k {
        assert (a + b)[k] == b[k - |a|];
      }
    }
  }

  /** The entries of table `i`. */
  function EntriesOf(dc: seq<bool>, ac: seq<bool>, c: Conditioning, i: nat): (r: seq<(nat, nat)>)
    requires LegalCond(c) && |dc| == |ac| == 16 && i < 16
  {
    (if dc[i] then [DcEntryOf(c, i)] else []) + if ac[i] then [AcEntryOf(c, i)] else []
  }

  lemma OwnListed(dc: seq<bool>, ac: seq<bool>, c: Conditioning, i: nat)
    requires LegalCond(c) && |dc| == |ac| == 16 && i < 16
    ensures var own := EntriesOf(dc, ac, c, i);
      && Ordered(own) && (dc[i] ==> DcEntryOf(c, i) in own) && (ac[i] ==> AcEntryOf(c, i) in own)
      && forall k :: 0 <= k < |own| ==> Proper(own[k], dc, ac, c, i) && Rank(own[k].0) < 2 * i + 2
  {
    var own := EntriesOf(dc, ac, c, i);
    if ac[i] {
      assert own[|own| - 1] == AcEntryOf(c, i);
    }
  }

  lemma ListedNext(rest: seq<(nat, nat)>, dc: seq<bool>, ac: seq<bool>, c: Conditioning, i: nat)
    requires LegalCond(c) && |dc| == |ac| == 16 && i < 16 && Listed(rest, dc, ac, c, i + 1)
    ensures Listed(EntriesOf(dc, ac, c, i) + rest, dc, ac, c, i)
  {
    hide EntriesOf, DcEntryOf, AcEntryOf, LegalCond;
    var own := EntriesOf(dc, ac, c, i);
    var all := own + rest;
    OwnListed(dc, ac, c, i);
    forall k | 0 <= k < |all|
      ensures Proper(all[k], dc, ac, c, i)
    {
      if |own| <= k {
        assert all[k] == rest[k - |own|];
      }
    }
    assert Ordered(all) by {
      forall k | 0 <= k < |rest|
        ensures 2 * i + 2 <= Rank(rest[k].0)
      {
        assert Proper(rest[k], dc, ac, c, i + 1);
      }
      OrderedJoin(own, rest, 2 * i + 2);
    }
  }

  lemma OrderedJoin(a: seq<(nat, nat)>, b: seq<(nat, nat)>, m: nat)
    requires Ordered(a) && Ordered(b) && forall k :: 0 <= k < |a| ==> Rank(a[k].0) < m
    requires forall k :: 0 <= k < |b| ==> m <= Rank(b[k].0)
    ensures Ordered(a + b)
  {
    hide Rank;
  }

  lemma OwnEntries(src: seq<byte>, p: nat, dc: seq<bool>, ac: seq<bool>, c: Conditioning, i: nat)
    requires LegalValues(c) && LegalCond(c) && |dc| == |ac| == 16 && i < 16
    requires Has(src, p, DcBytes(dc[i], c, i) + AcBytes(ac[i], c, i))
    ensures EntriesAt(src, p, EntriesOf(dc, ac, c, i))
    ensures |DcBytes(dc[i], c, i) + AcBytes(ac[i], c, i)| == 2 * |EntriesOf(dc, ac, c, i)|
  {
    hide Has;
    HasSplit(src, p, DcBytes(dc[i], c, i), AcBytes(ac[i], c, i));
    HasSize(src, p, DcBytes(dc[i], c, i) + AcBytes(ac[i], c, i));
    if dc[i] {
      HasPair(src, p, ToByte(i), ToByte(c.dcL[i] + 16 * c.dcU[i]));
    }
    if ac[i] {
      HasPair(src, p + |DcBytes(dc[i], c, i)|, ToByte(i + 16), ToByte(c.acK[i]));
      ByteIs(c.acK[i]);
    }
  }

  lemma {:induction false} DacEntriesSpelled(src: seq<byte>, p: nat, dc: seq<bool>, ac: seq<bool>, c: Conditioning,
                                             i: nat)
    returns (entries: seq<(nat, nat)>)
    requires LegalValues(c) && LegalCond(c) && |dc| == |ac| == 16 && i <= 16 && Has(src, p, DacBody(dc, ac, c, i))
    ensures EntriesAt(src, p, entries) && Listed(entries, dc, ac, c, i) && |DacBody(dc, ac, c, i)| == 2 * |entries|
    decreases 16 - i
  {
    hide Has, LegalValues, DcBytes, AcBytes, EntriesAt, Listed, LegalCond, EntriesOf;
    if i == 16 {
      entries := [];
      NoEntry(src, p, dc, ac, c);
    } else {
      BodyIs(dc, ac, c, i);
      var bytes, rest := DcBytes(dc[i], c, i) + AcBytes(ac[i], c, i), DacBody(dc, ac, c, i + 1);
      var own := EntriesOf(dc, ac, c, i);
      HasSplit(src, p, bytes, rest);
      OwnEntries(src, p, dc, ac, c, i);
      var more := DacEntriesSpelled(src, p + |bytes|, dc, ac, c, i + 1);
      entries := own + more;
      EntriesJoin(src, p, own, more);
      ListedNext(more, dc, ac, c, i);
    }
  }

  lemma NoEntry(src: seq<byte>, p: nat, dc: seq<bool>, ac: seq<bool>, c: Conditioning)
    requires LegalCond(c) && |dc| == |ac| == 16 && Has(src, p, [])
    ensures EntriesAt(src, p, []) && Listed([], dc, ac, c, 16) && DacBody(dc, ac, c, 16) == []
  {
  }

  /** A component of the scan uses DC conditioning table `i`. */
  predicate DcUsed(comps: seq<Component>, s: ScanInfo, n: nat, i: nat)
    requires n <= |s.comps| && forall j :: 0 <= j < |s.comps| ==> s.comps[j] < |comps|
  {
    s.ss == 0 && s.ah == 0 && exists j :: 0 <= j < n && comps[s.comps[j]].dcTbl == i
  }

  predicate AcUsed(comps: seq<Component>, s: ScanInfo, n: nat, i: nat)
    requires n <= |s.comps| && forall j :: 0 <= j < |s.comps| ==> s.comps[j] < |comps|
  {
    s.se != 0 && exists j :: 0 <= j < n && comps[s.comps[j]].acTbl == i
  }

  lemma {:induction false} InUseSpelled(comps: seq<Component>, s: ScanInfo, n: nat)
    requires n <= |s.comps| && forall j :: 0 <= j < |s.comps| ==> s.comps[j] < |comps|
    requires forall j :: 0 <= j < |comps| ==> comps[j].dcTbl < 16 && comps[j].acTbl < 16
    ensures forall i :: 0 <= i < 16 ==> (DcInUse(comps, s, n)[i] <==> DcUsed(comps, s, n, i))
    ensures forall i :: 0 <= i < 16 ==> (AcInUse(comps, s, n)[i] <==> AcUsed(comps, s, n, i))
  {
    if n != 0 {
      InUseSpelled(comps, s, n - 1);
      forall i | 0 <= i < 16
        ensures DcInUse(comps, s, n)[i] <==> DcUsed(comps, s, n, i)
        ensures AcInUse(comps, s, n)[i] <==> AcUsed(comps, s, n, i)
      {
        var k := comps[s.comps[n - 1]];
        assert DcUsed(comps, s, n, i) <==> DcUsed(comps, s, n - 1, i) || (s.ss == 0 && s.ah == 0 && k.dcTbl == i);
        assert AcUsed(comps, s, n, i) <==> AcUsed(comps, s, n - 1, i) || (s.se != 0 && k.acTbl == i);
      }
    }
  }

  /** In order, the conditioning tables that the scan uses with their values, and no others. */
  ghost predicate Conditions(entries: seq<(nat, nat)>, comps: seq<Component>, s: ScanInfo, c: Conditioning)
    requires LegalCond(c) && forall j :: 0 <= j < |s.comps| ==> s.comps[j] < |comps|
  {
    && Ordered(entries) && (forall k :: 0 <= k < |entries| ==> entries[k].0 < 32)
    && (forall k :: 0 <= k < |entries| && entries[k].0 < 16 ==>
          && DcUsed(comps, s, |s.comps|, entries[k].0)
          && entries[k].1 == c.dcL[entries[k].0] + 16 * c.dcU[entries[k].0])
    && (forall k :: 0 <= k < |entries| && entries[k].0 >= 16 ==>
          AcUsed(comps, s, |s.comps|, entries[k].0 - 16) && entries[k].1 == c.acK[entries[k].0 - 16])
    && (forall i :: 0 <= i < 16 && DcUsed(comps, s, |s.comps|, i) ==> DcEntryOf(c, i) in entries)
    && forall i :: 0 <= i < 16 && AcUsed(comps, s, |s.comps|, i) ==> AcEntryOf(c, i) in entries
  }

  /** The conditioning values of the tables that the scan uses, in one segment, if there are any. */
  lemma DacSpelled(src: seq<byte>, p: nat, comps: seq<Component>, s: ScanInfo, c: Conditioning)
    returns (entries: seq<(nat, nat)>)
    requires LegalValues(c) && LegalCond(c) && forall j :: 0 <= j < |s.comps| ==> s.comps[j] < |comps|
    requires forall j :: 0 <= j < |comps| ==> comps[j].dcTbl < 16 && comps[j].acTbl < 16
    requires Has(src, p, DacSegment(comps, s, c))
    ensures |DacSegment(comps, s, c)| == if entries == [] then 0 else 4 + 2 * |entries|
    ensures entries != [] ==> DacLayout(src, p, entries)
    ensures Conditions(entries, comps, s, c)
  {
    hide Has, DacBody, LegalValues, DcInUse, AcInUse, DcUsed, AcUsed, Number;
    var dc, ac := DcInUse(comps, s, |s.comps|), AcInUse(comps, s, |s.comps|);
    var body := DacBody(dc, ac, c, 0);
    InUseSpelled(comps, s, |s.comps|);
    BodySize(dc, ac, c, 0);
    if body == [] {
      entries := DacEntriesSpelled(src, p, dc, ac, c, 0);
    } else {
      SegmentStarts(src, p, 0xCC, body);
      entries := DacEntriesSpelled(src, p + 4, dc, ac, c, 0);
    }
  }
}
