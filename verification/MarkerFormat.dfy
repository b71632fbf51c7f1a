/** Marker segments (T.81 section B.2): what jcmarker.c writes and what jdmarker.c makes of
    any bytes. */
module MarkerFormat {
  import opened Bytes
  import opened HuffmanCode
  import opened ArithScan

  const SOF0: byte := 0xC0
  const SOF1: byte := 0xC1
  const SOF2: byte := 0xC2
  const SOF9: byte := 0xC9
  const SOF10: byte := 0xCA
  const DHT: byte := 0xC4
  const DAC: byte := 0xCC
  const SOI: byte := 0xD8
  const EOI: byte := 0xD9
  const SOS: byte := 0xDA
  const DQT: byte := 0xDB
  const DRI: byte := 0xDD
  const LSE: byte := 0xF8

  // ------------------------------------------------------------------ parameters

  /** A component: identifier, sampling factors, quantization and entropy table numbers. */
  datatype Component = Component(id: nat, h: nat, v: nat, tq: nat, dcTbl: nat, acTbl: nat)

  /** A quantization table in natural order, a Huffman table, and whether it was written. */
  datatype QuantSlot = QuantSlot(vals: seq<nat>, sent: bool)

  datatype HuffSlot = HuffSlot(table: Table, sent: bool)

  /** Parameters of a frame. */
  datatype FrameInfo = FrameInfo(precision: nat, height: nat, width: nat, comps: seq<Component>)

  /** Parameters of a scan: components by their place in the frame. */
  datatype ScanInfo = ScanInfo(comps: seq<nat>, ss: nat, se: nat, ah: nat, al: nat)

  /** Zigzag orders for blocks of 8x8 and, by their size, of 2x2 to 7x7 (jutils.c is not part
      of this model). */
  datatype Orders = Orders(full: seq<nat>, small: seq<seq<nat>>)

  predicate IsInjective(order: seq<nat>, n: nat)
  {
    && n <= |order| && (forall i :: 0 <= i < n ==> order[i] < 64)
    && forall i, k :: 0 <= i < k < n ==> order[i] != order[k]
  }

  predicate LegalOrders(o: Orders)
  {
    && IsInjective(o.full, 64) && |o.small| == 8
    && forall k :: 2 <= k < 8 ==> IsInjective(o.small[k], k * k)
  }

  /** get_dqt and jcmaster.c choose the order by the number of coefficients. */
  function OrderOf(o: Orders, count: nat): (order: seq<nat>)
    requires LegalOrders(o)
    ensures count <= 64 ==> IsInjective(order, count)
  {
    if count == 4 then o.small[2]
    else if count == 9 then o.small[3]
    else if count == 16 then o.small[4]
    else if count == 25 then o.small[5]
    else if count == 36 then o.small[6]
    else if count == 49 then o.small[7]
    else o.full
  }

  // ------------------------------------------------------------------------ bytes

  function ToByte(v: int): byte
  {
    v % 256
  }

  /** emit_2bytes. */
  function Two(v: int): (s: seq<byte>)
    ensures |s| == 2
  {
    [ToByte(v / 256), ToByte(v)]
  }

  function Word(src: seq<byte>, p: nat): nat
    requires p + 2 <= |src|
  {
    var hi: nat, lo: nat := src[p], src[p + 1];
    hi * 256 + lo
  }

  /** The bytes `s` are at position `p`. */
  ghost predicate Has(src: seq<byte>, p: nat, s: seq<byte>)
  {
    p + |s| <= |src| && src[p..p + |s|] == s
  }

  lemma HasSplit(src: seq<byte>, p: nat, a: seq<byte>, b: seq<byte>)
    requires Has(src, p, a + b)
    ensures Has(src, p, a) && Has(src, p + |a|, b)
  {
    var s := src[p..p + |a + b|];
    assert src[p..p + |a|] == s[..|a|] == a;
    assert src[p + |a|..p + |a| + |b|] == s[|a|..] == b;
  }

  lemma HasByte(src: seq<byte>, p: nat, b: byte)
    requires Has(src, p, [b])
    ensures p < |src| && src[p] == b
  {
    assert src[p..p + 1][0] == src[p];
  }

  lemma HasPair(src: seq<byte>, p: nat, a: byte, b: byte)
    requires Has(src, p, [a, b])
    ensures p + 2 <= |src| && src[p] == a && src[p + 1] == b
  {
    var s := src[p..p + 2];
    assert s[0] == src[p] && s[1] == src[p + 1];
  }

  lemma HasTwo(src: seq<byte>, p: nat, v: nat)
    requires Has(src, p, Two(v)) && v < 65536
    ensures p + 2 <= |src| && Word(src, p) == v
  {
    var s := src[p..p + 2];
    assert s[0] == src[p] && s[1] == src[p + 1];
  }

  /** A marker and its parameters, with their length. */
  function Segment(marker: byte, body: seq<byte>): (s: seq<byte>)
    ensures |s| == |body| + 4
  {
    [255, marker] + Two(|body| + 2) + body
  }

  /** A marker read: its value and the next position, or not all there, or refused. */
  datatype Read<T> = Done(value: T, next: nat) | Suspended | Bad

  // -------------------------------------------------------------------------- DQT

  /** The table's values in zigzag order. */
  function Zigzagged(vals: seq<nat>, order: seq<nat>, n: nat): (r: seq<nat>)
    requires IsInjective(order, n) && |vals| == 64
    ensures |r| == n && forall i :: 0 <= i < n ==> r[i] == vals[order[i]]
  {
    if n == 0 then [] else Zigzagged(vals, order, n - 1) + [vals[order[n - 1]]]
  }

  predicate Wide(vals: seq<nat>)
  {
    exists i :: 0 <= i < |vals| && vals[i] > 255
  }

  function ValueBytes(wide: bool, vals: seq<nat>): (s: seq<byte>)
    ensures |s| == if wide then 2 * |vals| else |vals|
    decreases |vals|
  {
    if vals == [] then []
    else
      var n := |vals| - 1;
      ValueBytes(wide, vals[..n]) + if wide then Two(vals[n]) else [ToByte(vals[n])]
  }

  /** Parameters of the DQT segment that emit_dqt writes. */
  function DqtBody(index: nat, vals: seq<nat>): seq<byte>
  {
    [ToByte(index + if Wide(vals) then 16 else 0)] + ValueBytes(Wide(vals), vals)
  }

  function Values(src: seq<byte>, p: nat, wide: bool, n: nat): (r: seq<nat>)
    requires p + (if wide then 2 * n else n) <= |src|
    ensures |r| == n
    ensures forall i :: 0 <= i < n ==> r[i] == if wide then Word(src, p + 2 * i) else src[p + i]
  {
    if n == 0 then []
    else Values(src, p, wide, n - 1) + [if wide then Word(src, p + 2 * (n - 1)) else src[p + n - 1]]
  }

  /** The table after `n` stores. */
  function Stored(base: seq<nat>, order: seq<nat>, vals: seq<nat>, n: nat): (r: seq<nat>)
    requires IsInjective(order, n) && |base| == 64 && n <= |vals|
    ensures |r| == 64
  {
    if n == 0 then base else Stored(base, order, vals, n - 1)[order[n - 1] := vals[n - 1]]
  }

  function Ones(n: nat): (r: seq<nat>)
    ensures |r| == n
  {
    seq(n, i => 1)
  }

  /** How many values of a table there are when `rem` bytes are left. */
  function DqtCount(wide: bool, rem: nat): (n: nat)
    ensures n <= 64 && (if wide then 2 * n else n) <= rem
  {
    if wide then (if rem < 128 then rem / 2 else 64) else if rem < 64 then rem else 64
  }

  /** What is under the new values: ones, if they may not fill the table. */
  function DqtBase(wide: bool, rem: nat, n: nat, quant: map<nat, seq<nat>>): (r: seq<nat>)
    ensures |r| == 64
  {
    if rem < (if wide then 128 else 64) || n !in quant || |quant[n]| != 64 then Ones(64) else quant[n]
  }

  function DqtTables(src: seq<byte>, p: nat, length: int, quant: map<nat, seq<nat>>, o: Orders)
    : (r: Read<map<nat, seq<nat>>>)
    requires LegalOrders(o)
    ensures r.Done? && p <= |src| ==> p <= r.next <= |src|
    decreases length
  {
    if length <= 0 then (if length == 0 then Done(quant, p) else Bad)
    else if p >= |src| then Suspended
    else
      var n, wide, rem := src[p] % 16, src[p] / 16 != 0, length - 1;
      if n >= 4 then Bad
      else
        var count := DqtCount(wide, rem);
        var size := if wide then 2 * count else count;
        if p + 1 + size > |src| then Suspended
        else
          var table := Stored(DqtBase(wide, rem, n, quant), OrderOf(o, count), Values(src, p + 1, wide, count), count);
          DqtTables(src, p + 1 + size, rem - size, quant[n := table], o)
  }

  /** get_dqt. */
  function ParseDqt(src: seq<byte>, p: nat, quant: map<nat, seq<nat>>, o: Orders)
    : (r: Read<map<nat, seq<nat>>>)
    requires LegalOrders(o)
    ensures r.Done? && p <= |src| ==> p <= r.next <= |src|
  {
    if p + 2 > |src| then Suspended else DqtTables(src, p + 2, Word(src, p) - 2, quant, o)
  }

  // -------------------------------------------------------------------------- DHT

  function Sum(bits: seq<nat>): nat
  {
    if bits == [] then 0 else Sum(bits[..|bits| - 1]) + bits[|bits| - 1]
  }

  function BytesOf(vals: seq<nat>): (s: seq<byte>)
    ensures |s| == |vals| && forall i :: 0 <= i < |s| ==> s[i] == vals[i] % 256
  {
    if vals == [] then [] else BytesOf(vals[..|vals| - 1]) + [ToByte(vals[|vals| - 1])]
  }

  /** Parameters of the DHT segment that emit_dht writes. */
  function DhtBody(index: nat, ac: bool, t: Table): seq<byte>
    requires WellFormed(t) && Sum(t.bits[1..]) <= 256
  {
    [ToByte(index + if ac then 16 else 0)] + BytesOf(t.bits[1..]) + BytesOf(t.vals[..Sum(t.bits[1..])])
  }

  function Nats(src: seq<byte>): (r: seq<nat>)
    ensures |r| == |src| && forall i :: 0 <= i < |r| ==> r[i] == src[i]
  {
    seq(|src|, i requires 0 <= i < |src| => src[i])
  }

  function Zeros256(n: nat): (r: seq<nat>)
    ensures |r| == n && forall i :: 0 <= i < n ==> r[i] == 0
  {
    seq(n, i => 0)
  }

  /** DC and AC tables. */
  datatype HuffTables = HuffTables(dc: map<nat, Table>, ac: map<nat, Table>)

  function DhtTables(src: seq<byte>, p: nat, length: int, h: HuffTables): (r: Read<HuffTables>)
    ensures r.Done? && p <= |src| ==> p <= r.next <= |src|
    decreases length
  {
    if length <= 16 then (if length == 0 then Done(h, p) else Bad)
    else if p + 17 > |src| then Suspended
    else
      var bits := Nats(src[p + 1..p + 17]);
      var count := Sum(bits);
      if count > 256 || count > length - 17 then Bad
      else if p + 17 + count > |src| then Suspended
      else
        var t := Table([0] + bits, Nats(src[p + 17..p + 17 + count]) + Zeros256(256 - count));
        var ac := src[p] / 16 % 2 == 1;
        var index := if ac then src[p] - 16 else src[p];
        if index >= 4 then Bad
        else DhtTables(src, p + 17 + count, length - 17 - count,
                       if ac then h.(ac := h.ac[index := t]) else h.(dc := h.dc[index := t]))
  }

  /** get_dht. */
  function ParseDht(src: seq<byte>, p: nat, h: HuffTables): (r: Read<HuffTables>)
    ensures r.Done? && p <= |src| ==> p <= r.next <= |src|
  {
    if p + 2 > |src| then Suspended else DhtTables(src, p + 2, Word(src, p) - 2, h)
  }

  // -------------------------------------------------------------------------- DAC

  predicate LegalCond(c: Conditioning)
  {
    |c.dcL| == |c.dcU| == |c.acK| == 16
  }

  /** The values of tables from `i` on that are in use. */
  function DacBody(dcInUse: seq<bool>, acInUse: seq<bool>, c: Conditioning, i: nat): seq<byte>
    requires |dcInUse| == |acInUse| == 16 && LegalCond(c) && i <= 16
    decreases 16 - i
  {
    if i == 16 then []
    else
      (if dcInUse[i] then [ToByte(i), ToByte(c.dcL[i] + 16 * c.dcU[i])] else [])
      + (if acInUse[i] then [ToByte(i + 16), ToByte(c.acK[i])] else [])
      + DacBody(dcInUse, acInUse, c, i + 1)
  }

  function DacEntries(src: seq<byte>, p: nat, length: int, c: Conditioning): (r: Read<Conditioning>)
    requires LegalCond(c)
    ensures r.Done? && p <= |src| ==> p <= r.next <= |src|
    ensures r.Done? ==> LegalCond(r.value)
    decreases length
  {
    if length <= 0 then (if length == 0 then Done(c, p) else Bad)
    else if p + 2 > |src| then Suspended
    else
      var index, val := src[p], src[p + 1];
      if index >= 32 then Bad
      else if index >= 16 then DacEntries(src, p + 2, length - 2, c.(acK := c.acK[index - 16 := val]))
      else if val % 16 > val / 16 then Bad
      else DacEntries(src, p + 2, length - 2, c.(dcL := c.dcL[index := val % 16], dcU := c.dcU[index := val / 16]))
  }

  /** get_dac. */
  function ParseDac(src: seq<byte>, p: nat, c: Conditioning): (r: Read<Conditioning>)
    requires LegalCond(c)
    ensures r.Done? && p <= |src| ==> p <= r.next <= |src|
    ensures r.Done? ==> LegalCond(r.value)
  {
    if p + 2 > |src| then Suspended else DacEntries(src, p + 2, Word(src, p) - 2, c)
  }

  // -------------------------------------------------------------------------- DRI

  function DriBody(interval: nat): seq<byte>
  {
    Two(interval)
  }

  /** get_dri. */
  function ParseDri(src: seq<byte>, p: nat): (r: Read<nat>)
    ensures r.Done? && p <= |src| ==> p <= r.next <= |src|
  {
    if p + 2 > |src| then Suspended
    else if Word(src, p) != 4 then Bad
    else if p + 4 > |src| then Suspended
    else Done(Word(src, p + 2), p + 4)
  }

  // -------------------------------------------------------------------------- SOF

  function CompBytes(comps: seq<Component>): (s: seq<byte>)
    ensures |s| == 3 * |comps|
    decreases |comps|
  {
    if comps == [] then []
    else
      var n := |comps| - 1;
      CompBytes(comps[..n]) + [ToByte(comps[n].id), ToByte(comps[n].h * 16 + comps[n].v), ToByte(comps[n].tq)]
  }

  /** Parameters of the SOF segment that emit_sof writes. */
  function SofBody(f: FrameInfo): (s: seq<byte>)
    ensures |s| == 6 + 3 * |f.comps|
  {
    [ToByte(f.precision)] + Two(f.height) + Two(f.width) + [ToByte(|f.comps|)] + CompBytes(f.comps)
  }

  function Ids(comps: seq<Component>): (r: seq<nat>)
    ensures |r| == |comps| && forall i :: 0 <= i < |r| ==> r[i] == comps[i].id
  {
    seq(|comps|, i requires 0 <= i < |comps| => comps[i].id)
  }

  function MaxOf(s: seq<nat>): (m: nat)
    requires s != []
    ensures m in s && forall x :: x in s ==> x <= m
  {
    if |s| == 1 then s[0]
    else
      var m := MaxOf(s[..|s| - 1]);
      assert forall x :: x in s ==> x in s[..|s| - 1] || x == s[|s| - 1];
      if s[|s| - 1] > m then s[|s| - 1] else m
  }

  /** An identifier seen before is replaced by one more than the greatest. */
  function FakeId(ids: seq<nat>, c: nat): (id: nat)
    ensures id !in ids && (c !in ids ==> id == c)
  {
    if c in ids then MaxOf(ids) + 1 else c
  }

  function SofComps(src: seq<byte>, p: nat, n: nat, comps: seq<Component>): (r: Read<seq<Component>>)
    ensures r.Done? && p <= |src| ==> p <= r.next <= |src|
    decreases n
  {
    if n == 0 then Done(comps, p)
    else if p + 3 > |src| then Suspended
    else
      var c := Component(FakeId(Ids(comps), src[p]), src[p + 1] / 16, src[p + 1] % 16, src[p + 2], 0, 0);
      SofComps(src, p + 3, n - 1, comps + [c])
  }

  /** get_sof. */
  function ParseSof(src: seq<byte>, p: nat, sawSof: bool): (r: Read<FrameInfo>)
    ensures r.Done? && p <= |src| ==> p <= r.next <= |src|
  {
    if p + 8 > |src| then Suspended
    else
      var height, width, n: nat := Word(src, p + 3), Word(src, p + 5), src[p + 7];
      if sawSof || height == 0 || width == 0 || n == 0 || Word(src, p) - 8 != 3 * n then Bad
      else match SofComps(src, p + 8, n, [])
        case Done(comps, next) => Done(FrameInfo(src[p + 2], height, width, comps), next)
        case Suspended => Suspended
        case Bad => Bad
  }

  // -------------------------------------------------------------------------- LSE

  /** A value of one byte or two. */
  datatype Field = Field(wide: bool, value: nat)

  function FieldSize(f: Field): nat
  {
    if f.wide then 2 else 1
  }

  function OneField(f: Field): seq<byte>
  {
    if f.wide then Two(f.value) else [ToByte(f.value)]
  }

  function FieldBytes(fs: seq<Field>): seq<byte>
  {
    if fs == [] then [] else FieldBytes(fs[..|fs| - 1]) + OneField(fs[|fs| - 1])
  }

  /** Parameters of the LSE segment that emit_lse_ict writes: the inverse of the transform that
      subtracts green, for components with these identifiers. */
  function LseFields(ids: seq<nat>): (r: seq<Field>)
    requires |ids| >= 3
    ensures |r| == 15
  {
    [Field(false, 0x0D), Field(true, 255), Field(false, 3), Field(false, ids[1]), Field(false, ids[0]),
     Field(false, ids[2]), Field(false, 0x80), Field(true, 0), Field(true, 0), Field(false, 0), Field(true, 1),
     Field(true, 0), Field(false, 0), Field(true, 1), Field(true, 0)]
  }

  lemma LseSize(ids: seq<nat>)
    requires |ids| >= 3
    ensures |FieldBytes(LseFields(ids))| == 22 && LseFields(ids)[..15] == LseFields(ids)
  {
    hide FieldBytes;
    var fs := LseFields(ids);
    NoFieldBytes(fs);
    FiveSizes(fs, 0);
    FiveSizes(fs, 5);
    FiveSizes(fs, 10);
    assert fs[..15] == fs;
    assert |FieldBytes(fs[..5])| == 6;
    assert |FieldBytes(fs[..10])| == 13;
  }

  lemma NoFieldBytes(fs: seq<Field>)
    ensures FieldBytes(fs[..0]) == []
  {
  }

  lemma FiveSizes(fs: seq<Field>, n: nat)
    requires n + 5 <= |fs|
    ensures |FieldBytes(fs[..n + 5])| == |FieldBytes(fs[..n])| + FieldSize(fs[n]) + FieldSize(fs[n + 1])
                                         + FieldSize(fs[n + 2]) + FieldSize(fs[n + 3]) + FieldSize(fs[n + 4])
  {
    hide FieldBytes;
    FieldStep(fs, n);
    FieldStep(fs, n + 1);
    FieldStep(fs, n + 2);
    FieldStep(fs, n + 3);
    FieldStep(fs, n + 4);
  }

  lemma FieldStep(fs: seq<Field>, n: nat)
    requires n < |fs|
    ensures FieldBytes(fs[..n + 1]) == FieldBytes(fs[..n]) + OneField(fs[n])
    ensures |OneField(fs[n])| == FieldSize(fs[n])
  {
    assert fs[..n + 1][..n] == fs[..n];
  }

  /** The values must be there, one after the other. */
  function ReadFields(src: seq<byte>, p: nat, fs: seq<Field>): (r: Read<bool>)
    ensures r.Done? && p <= |src| ==> p <= r.next <= |src|
    decreases fs
  {
    if fs == [] then Done(true, p)
    else if p + FieldSize(fs[0]) > |src| then Suspended
    else
      var v: nat := if fs[0].wide then Word(src, p) else src[p];
      if v != fs[0].value then Bad else ReadFields(src, p + FieldSize(fs[0]), fs[1..])
  }

  /** get_lse. */
  function ParseLse(src: seq<byte>, p: nat, sawSof: bool, ids: seq<nat>): (r: Read<bool>)
    ensures r.Done? && p <= |src| ==> p <= r.next <= |src|
  {
    if !sawSof || |ids| < 3 then Bad
    else if p + 2 > |src| then Suspended
    else if Word(src, p) != 24 then Bad
    else ReadFields(src, p + 2, LseFields(ids))
  }

  // -------------------------------------------------------------------------- SOS

  /** Table numbers that the scan uses; unused ones are written as 0. */
  function TableByte(c: Component, s: ScanInfo): byte
  {
    ToByte((if s.ss == 0 && s.ah == 0 then c.dcTbl else 0) * 16 + if s.se != 0 then c.acTbl else 0)
  }

  function SosCompBytes(comps: seq<Component>, s: ScanInfo, n: nat): (r: seq<byte>)
    requires n <= |s.comps| && forall i :: 0 <= i < |s.comps| ==> s.comps[i] < |comps|
    ensures |r| == 2 * n
  {
    if n == 0 then []
    else
      var c := comps[s.comps[n - 1]];
      SosCompBytes(comps, s, n - 1) + [ToByte(c.id), TableByte(c, s)]
  }

  /** Parameters of the SOS segment that emit_sos writes. */
  function SosBody(comps: seq<Component>, s: ScanInfo): (r: seq<byte>)
    requires forall i :: 0 <= i < |s.comps| ==> s.comps[i] < |comps|
    ensures |r| == 4 + 2 * |s.comps|
  {
    [ToByte(|s.comps|)] + SosCompBytes(comps, s, |s.comps|)
    + [ToByte(s.ss), ToByte(s.se), ToByte(s.ah * 16 + s.al)]
  }

  /** The first component with this identifier, or their number. */
  function Find(comps: seq<Component>, id: nat): (i: nat)
    ensures i <= |comps| && (i < |comps| ==> comps[i].id == id)
    ensures forall k :: 0 <= k < i ==> comps[k].id != id
  {
    FindFrom(comps, id, 0)
  }

  function FindFrom(comps: seq<Component>, id: nat, at: nat): (i: nat)
    requires at <= |comps|
    ensures at <= i <= |comps| && (i < |comps| ==> comps[i].id == id)
    ensures forall k :: at <= k < i ==> comps[k].id != id
    decreases |comps| - at
  {
    if at == |comps| || comps[at].id == id then at else FindFrom(comps, id, at + 1)
  }

  function ScanIds(comps: seq<Component>, scan: seq<nat>): (r: seq<nat>)
    requires forall i :: 0 <= i < |scan| ==> scan[i] < |comps|
    ensures |r| == |scan| && forall i :: 0 <= i < |r| ==> r[i] == comps[scan[i]].id
  {
    seq(|scan|, i requires 0 <= i < |scan| => comps[scan[i]].id)
  }

  /** The component specifications: which components, and their table numbers. */
  function SosComps(src: seq<byte>, p: nat, n: nat, comps: seq<Component>, scan: seq<nat>)
    : (r: Read<(seq<Component>, seq<nat>)>)
    requires forall i :: 0 <= i < |scan| ==> scan[i] < |comps|
    ensures r.Done? && p <= |src| ==> p <= r.next <= |src|
    decreases n
  {
    if n == 0 then Done((comps, scan), p)
    else if p >= |src| then Suspended
    else
      var ci := Find(comps, FakeId(ScanIds(comps, scan), src[p]));
      if ci == |comps| then Bad
      else if p + 1 >= |src| then Suspended
      else
        var c := comps[ci].(dcTbl := src[p + 1] / 16, acTbl := src[p + 1] % 16);
        SosComps(src, p + 2, n - 1, comps[ci := c], scan + [ci])
  }

  /** get_sos, after a frame header. */
  function ParseSos(src: seq<byte>, p: nat, progressive: bool, comps: seq<Component>)
    : (r: Read<(seq<Component>, ScanInfo)>)
    ensures r.Done? && p <= |src| ==> p <= r.next <= |src|
  {
    if p + 3 > |src| then Suspended
    else
      var n: nat := src[p + 2];
      if Word(src, p) != n * 2 + 6 || n > 4 || (n == 0 && !progressive) then Bad
      else match SosComps(src, p + 3, n, comps, [])
        case Suspended => Suspended
        case Bad => Bad
        case Done(v, q) =>
          if q + 3 > |src| then Suspended
          else Done((v.0, ScanInfo(v.1, src[q], src[q + 1], src[q + 2] / 16, src[q + 2] % 16)), q + 3)
  }
}
