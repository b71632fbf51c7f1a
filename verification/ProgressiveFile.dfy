/** A whole progressive file with Huffman coding: the headers and the scans as they are
    written, read back by the marker reader and the entropy decoder in turn, up to the EOI
    marker. */
module ProgressiveFile {
  import opened Bytes
  import opened BitStreams
  import opened Coefficients
  import opened RestartGroups
  import opened ProgressiveImage
  import opened HuffmanCode
  import opened HuffmanScan
  import opened HuffmanTables
  import A = ArithScan
  import F = MarkerFormat
  import H = MarkerHeaders
  import P = ProgressiveScript
  import R = MarkerReading
  import T = MarkerRoundTrip
  import W = MarkerWriting
  import HuffmanBlock
  import HuffmanRoundTrip
  import ProgressiveBand
  import ScanScript
  import SimpleProgression

  // ------------------------------------------------------- only the used tables matter

  /** The same tables wherever the scan uses one. */
  ghost predicate SameTables(s: Scan, ts: seq<CompTables>, us: seq<CompTables>)
  {
    && |ts| == |us|
    && forall i :: 0 <= i < |ts| ==>
         (UsesDc(s.mode) ==> ts[i].dcTable == us[i].dcTable) && (UsesAc(s) ==> ts[i].acTable == us[i].acTable)
  }

  lemma SameBlock(s: Scan, ts: seq<CompTables>, us: seq<CompTables>, p: Pred, slot: Slot, bits: seq<bit>, pos: nat)
    requires ValidScan(s) && Readable(s, ts) && Readable(s, us) && SameTables(s, ts, us)
    requires |p.last| == s.comps && slot.ci < s.comps
    ensures ParseBlock(s, ts, p, slot, bits, pos) == ParseBlock(s, us, p, slot, bits, pos)
  {
    hide OrBit, BitAt, ToCoef, HuffmanBlock.ParseDcDiff, HuffmanBlock.ParseAc, ProgressiveBand.BlockBand, WellFormed,
      Upto;
    var t, u := ts[slot.ci], us[slot.ci];
    assert ReadableAt(s, t) && ReadableAt(s, u);
    if s.mode == Sequential && s.se == 0 {
      var (diff, q) := HuffmanBlock.ParseDcDiff(t.dcTable, bits, pos);
      var b := slot.held[0 := ToCoef(p.last[slot.ci] + diff)];
      HuffmanRoundTrip.NoAc(t, b, bits, q);
      HuffmanRoundTrip.NoAc(u, b, bits, q);
    }
  }

  lemma {:induction false} SameSegment(s: Scan, ts: seq<CompTables>, us: seq<CompTables>, p: Pred, slots: seq<Slot>,
                                       bits: seq<bit>, pos: nat)
    requires ValidScan(s) && Readable(s, ts) && Readable(s, us) && SameTables(s, ts, us)
    requires |p.last| == s.comps && ValidSlots(s, slots)
    ensures ParseSegment(s, ts, p, slots, bits, pos) == ParseSegment(s, us, p, slots, bits, pos)
    decreases |slots|
  {
    hide ParseBlock, Readable, SameTables, ValidScan;
    if slots != [] {
      SameBlock(s, ts, us, p, slots[0], bits, pos);
      var (b, next, q) := ParseBlock(s, ts, p, slots[0], bits, pos);
      SameSegment(s, ts, us, next, slots[1..], bits, q);
    }
  }

  lemma {:induction false} SameScan(s: Scan, ts: seq<CompTables>, us: seq<CompTables>, slots: seq<seq<Slot>>, n: nat,
                                    input: seq<byte>)
    requires ValidScan(s) && Readable(s, ts) && Readable(s, us) && SameTables(s, ts, us) && slots != []
    requires forall i :: 0 <= i < |slots| ==> ValidSlots(s, slots[i])
    ensures ParseScan(s, ts, slots, n, input) == ParseScan(s, us, slots, n, input)
    decreases |slots|
  {
    hide ParseSegment, Readable, SameTables, ValidScan, Payload, End, Unpack;
    SameSegment(s, ts, us, NoPred(s), slots[0], Unpack(Payload(input)), 0);
    if |slots| > 1 && End(input).At? {
      SameScan(s, ts, us, slots[1..], n + 1, End(input).rest);
    }
  }

  // -------------------------------------------------------------------- the file

  /** The scan of the script that a scan header is for. */
  function InfoOf(s: F.ScanInfo): (r: ScanInfo)
  {
    ScanScript.ScanInfo(seq(|s.comps|, i requires 0 <= i < |s.comps| => s.comps[i] as int), s.ss, s.se, s.ah, s.al)
  }

  /** Where the blocks of a scan are in the image: both sides figure it from the frame, the
      scan and the restart interval. */
  type Way = (F.FrameInfo, F.ScanInfo, nat) -> seq<seq<Visit>>

  /** A scan with its header: Huffman tables at that time, restart interval, coded data. */
  datatype Part = Part(scan: F.ScanInfo, huffs: W.Huffs, restart: nat, coded: P.Coded)

  /** A component's tables in the header are those its blocks were coded with. */
  predicate TablesAt(k: F.Component, h: W.Huffs, s: Scan, t: CompTables)
  {
    && (UsesDc(s.mode) ==> k.dcTbl in h.dc && h.dc[k.dcTbl].table == t.dcTable)
    && (UsesAc(s) ==> k.acTbl in h.ac && h.ac[k.acTbl].table == t.acTable)
  }

  /** A scan of the image as the encoder writes it. */
  ghost predicate LegalPart(c: W.Settings, way: Way, orig: Image, x: Part)
  {
    && T.LegalScan(c.frame.comps, x.scan) && W.ScanOf(c, x.scan) && W.HaveHuff(c, x.scan, x.huffs)
    && W.LegalHuff(x.huffs.dc) && W.LegalHuff(x.huffs.ac) && x.restart < 65536
    && P.Written(x.coded, orig) && |x.coded.ts| == |x.scan.comps|
    && x.coded.walk == Walk(InfoOf(x.scan), way(H.Bare(c.frame), x.scan, x.restart))
    && forall i :: 0 <= i < |x.scan.comps| ==>
         TablesAt(c.frame.comps[x.scan.comps[i]], x.huffs, P.ScanOf(InfoOf(x.scan)), x.coded.ts[i])
  }

  /** Tables marked as sent are those that were. */
  ghost predicate SentFrom(next: map<nat, F.HuffSlot>, was: map<nat, F.HuffSlot>)
  {
    forall k :: k in next && next[k].sent ==> k in was && was[k] == next[k]
  }

  ghost predicate AllLegal(c: W.Settings, way: Way, orig: Image, parts: seq<Part>)
  {
    forall i :: 0 <= i < |parts| ==> LegalPart(c, way, orig, parts[i])
  }

  /** The scans of the file, each with the tables as the ones before left them or new. */
  ghost predicate LegalParts(c: W.Settings, way: Way, orig: Image, parts: seq<Part>)
  {
    && AllLegal(c, way, orig, parts)
    && forall i :: 0 < i < |parts| ==>
         var was := W.AfterDhts(c, parts[i - 1].scan, parts[i - 1].huffs, |parts[i - 1].scan.comps|);
         SentFrom(parts[i].huffs.dc, was.dc) && SentFrom(parts[i].huffs.ac, was.ac)
  }

  /** The file after the frame header: scans, EOI and anything else. */
  ghost function Scans(c: W.Settings, way: Way, orig: Image, parts: seq<Part>, cond: A.Conditioning, last: nat,
                       tail: seq<byte>): seq<byte>
    requires W.LegalSettings(c) && !c.arith && F.LegalCond(cond)
    requires AllLegal(c, way, orig, parts)
  {
    if parts == [] then [255, F.EOI] + tail
    else
      var x := parts[0];
      W.ScanHeader(c, x.scan, x.huffs, cond, x.restart, last)
      + ScanBytes(x.coded.codes, 0, Scans(c, way, orig, parts[1..], cond, x.restart, tail))
  }

  /** `a` begins with a marker. */
  predicate Marked(a: seq<byte>)
  {
    |a| >= 2 && a[0] == 255 && 0 < a[1] < 255
  }

  lemma MarkedAppend(a: seq<byte>, b: seq<byte>)
    ensures Marked(a) ==> Marked(a + b)
    ensures a == [] && Marked(b) ==> Marked(a + b)
  {
  }

  lemma SegmentMarked(m: byte, body: seq<byte>)
    requires 0 < m < 255
    ensures Marked(F.Segment(m, body))
  {
  }

  lemma EoiMarked(tail: seq<byte>)
    ensures Marked([255, F.EOI] + tail)
  {
  }

  lemma TablesMarked(s: F.ScanInfo, h: W.Huffs, k: F.Component)
    requires W.Writable(s, h, k)
    ensures W.TablesOf(s, h, k) == [] || Marked(W.TablesOf(s, h, k))
  {
    hide F.DhtBody, F.Segment, Marked;
    var dc := if W.UsesDc(s) then W.DhtSegment(k.dcTbl, false, h.dc[k.dcTbl]) else [];
    var ac := if W.UsesAc(s) then W.DhtSegment(k.acTbl, true, h.ac[k.acTbl]) else [];
    if W.UsesDc(s) && !h.dc[k.dcTbl].sent {
      SegmentMarked(F.DHT, F.DhtBody(k.dcTbl, false, h.dc[k.dcTbl].table));
    }
    if W.UsesAc(s) && !h.ac[k.acTbl].sent {
      SegmentMarked(F.DHT, F.DhtBody(k.acTbl, true, h.ac[k.acTbl].table));
    }
    MarkedAppend(dc, ac);
  }

  lemma {:induction false} DhtMarked(c: W.Settings, s: F.ScanInfo, h: W.Huffs, n: nat)
    requires W.ScanOf(c, s) && W.HaveHuff(c, s, h) && n <= |s.comps| && W.LegalHuff(h.dc) && W.LegalHuff(h.ac)
    ensures W.DhtBytes(c, s, h, n) == [] || Marked(W.DhtBytes(c, s, h, n))
    decreases n
  {
    hide W.TablesOf, Marked;
    if n > 0 {
      DhtMarked(c, s, h, n - 1);
      var g, k := W.AfterDhts(c, s, h, n - 1), c.frame.comps[s.comps[n - 1]];
      TablesMarked(s, g, k);
      MarkedAppend(W.DhtBytes(c, s, h, n - 1), W.TablesOf(s, g, k));
    }
  }

  lemma HeaderMarked(c: W.Settings, s: F.ScanInfo, h: W.Huffs, cond: A.Conditioning, restart: nat, last: nat)
    requires W.LegalSettings(c) && !c.arith && W.ScanOf(c, s) && F.LegalCond(cond)
    requires W.HaveHuff(c, s, h) && W.LegalHuff(h.dc) && W.LegalHuff(h.ac)
    ensures Marked(W.ScanHeader(c, s, h, cond, restart, last))
  {
    hide W.LegalSettings, W.DhtBytes, F.DriBody, F.SosBody, F.Segment, Marked, W.HaveHuff, W.LegalHuff;
    W.TablesFit(c, s);
    var dht := W.DhtBytes(c, s, h, |s.comps|);
    var dri := if restart != last then F.Segment(F.DRI, F.DriBody(restart)) else [];
    var sos := F.Segment(F.SOS, F.SosBody(c.frame.comps, s));
    DhtMarked(c, s, h, |s.comps|);
    SegmentMarked(F.DRI, F.DriBody(restart));
    SegmentMarked(F.SOS, F.SosBody(c.frame.comps, s));
    MarkedAppend(dht, dri);
    MarkedAppend(dht + dri, sos);
  }

  /** What follows a scan's data is a marker. */
  lemma ScansMarked(c: W.Settings, way: Way, orig: Image, parts: seq<Part>, cond: A.Conditioning, last: nat,
                    tail: seq<byte>)
    requires W.LegalSettings(c) && !c.arith && F.LegalCond(cond) && AllLegal(c, way, orig, parts)
    ensures Marked(Scans(c, way, orig, parts, cond, last, tail))
  {
    hide LegalPart, W.LegalSettings, W.ScanHeader, F.LegalCond, Marked;
    if parts == [] {
      EoiMarked(tail);
    } else {
      var x := parts[0];
      PartFacts(c, way, orig, x);
      HeaderMarked(c, x.scan, x.huffs, cond, x.restart, last);
      MarkedAppend(W.ScanHeader(c, x.scan, x.huffs, cond, x.restart, last),
                   ScanBytes(x.coded.codes, 0, Scans(c, way, orig, parts[1..], cond, x.restart, tail)));
    }
  }

  lemma PartFacts(c: W.Settings, way: Way, orig: Image, x: Part)
    requires LegalPart(c, way, orig, x)
    ensures T.LegalScan(c.frame.comps, x.scan) && W.ScanOf(c, x.scan) && W.HaveHuff(c, x.scan, x.huffs)
    ensures W.LegalHuff(x.huffs.dc) && W.LegalHuff(x.huffs.ac) && x.restart < 65536
    ensures P.Written(x.coded, orig) && x.coded.walk == Walk(InfoOf(x.scan), way(H.Bare(c.frame), x.scan, x.restart))
  {
  }

  // -------------------------------------------------------------------- the decoder

  function NoTable(): Table
  {
    Table(F.Zeros256(17), F.Zeros256(256))
  }

  function NoCodes(): CTable
  {
    CTable(F.Zeros256(256), F.Zeros256(256))
  }

  /** The tables for a component of the scan. */
  function TablesFor(d: R.Known, s: Scan, k: F.Component): CompTables
  {
    CompTables(if UsesDc(s.mode) && k.dcTbl in d.huff.dc then d.huff.dc[k.dcTbl] else NoTable(), NoCodes(),
               if UsesAc(s) && k.acTbl in d.huff.ac then d.huff.ac[k.acTbl] else NoTable(), NoCodes())
  }

  /** The components of the scan are in the frame. */
  predicate Placed(d: R.Known)
  {
    forall i :: 0 <= i < |d.scan.comps| ==> d.scan.comps[i] < |d.frame.comps|
  }

  function DecoderTables(d: R.Known, s: Scan): (r: seq<CompTables>)
    requires Placed(d)
    ensures |r| == |d.scan.comps|
    ensures forall i :: 0 <= i < |r| ==> r[i] == TablesFor(d, s, d.frame.comps[d.scan.comps[i]])
  {
    seq(|d.scan.comps|, i requires 0 <= i < |d.scan.comps| => TablesFor(d, s, d.frame.comps[d.scan.comps[i]]))
  }

  function WalkOf(way: Way, d: R.Known): Walk
  {
    Walk(InfoOf(d.scan), way(H.Bare(d.frame), d.scan, d.restart))
  }

  ghost predicate Slotted(s: Scan, w: Walk, held: Image)
    requires AllSegmentsIn(w, held)
  {
    forall i :: 0 <= i < |w.visits| ==> ValidSlots(s, P.Slots(w.info, held, w.visits[i]))
  }

  /** What the entropy decoder makes of the data at `p`, knowing `d`, over what it holds. */
  ghost function Decoded(src: seq<byte>, p: nat, d: R.Known, way: Way, held: Image): ScanResult
  {
    var s, w := P.ScanOf(InfoOf(d.scan)), WalkOf(way, d);
    if p <= |src| && ValidScan(s) && Placed(d) && Readable(s, DecoderTables(d, s)) && AllSegmentsIn(w, held)
       && Slotted(s, w, held)
    then ParseScan(s, DecoderTables(d, s), P.AllSlots(w, held), 0, src[p..])
    else BadScan
  }

  /** Where the decoder is in the file, with a marker it has met or 0, what it knows and the
      blocks it holds. */
  datatype State = State(p: nat, m: byte, d: R.Known, held: Image)

  ghost predicate Sound(src: seq<byte>, o: F.Orders, st: State)
  {
    F.LegalOrders(o) && F.LegalCond(st.d.cond) && st.p <= |src|
  }

  /** read_markers, and then the data of the scan it stops at: the blocks are stored, and
      the marker that ends the data is the next to be read. */
  ghost predicate Step(src: seq<byte>, o: F.Orders, way: Way, st: State, t: State)
    requires Sound(src, o, st)
  {
    var r := R.ReadFrom(src, st.p, st.m, st.d, o);
    var z := Decoded(src, r.next, r.d, way, st.held);
    r.stop == R.AtSos && z.Complete? && z.ending.At? && |z.ending.rest| <= |src| ==>
      && t.p == |src| - |z.ending.rest| && t.m == z.ending.code && t.d == r.d
      && AllSegmentsIn(WalkOf(way, r.d), st.held) && Stored(WalkOf(way, r.d), st.held, z.blocks, t.held)
  }

  /** The decoder's position `st` amounts to reading on at `p` with `d`. */
  ghost predicate Amounts(src: seq<byte>, o: F.Orders, st: State, p: nat, d: R.Known)
  {
    && Sound(src, o, st) && p <= |src| && F.LegalCond(d.cond)
    && R.ReadFrom(src, st.p, st.m, st.d, o) == R.ReadFrom(src, p, 0, d, o)
  }

  /** What the decoder knows before a scan header of the file. */
  ghost predicate Informed(c: W.Settings, d: R.Known, last: nat, h: W.Huffs)
  {
    && H.Ready(d) && d.sawSof && d.progressive && H.Bare(d.frame) == H.Bare(c.frame) && d.restart == last
    && H.HuffsAgree(h, d.huff)
  }

  // ------------------------------------------------------------------ one scan of it

  lemma HasFront(src: seq<byte>, p: nat, a: seq<byte>, b: seq<byte>)
    requires p <= |src| && src[p..] == a + b
    ensures F.Has(src, p, a) && p + |a| <= |src| && src[p + |a|..] == b
  {
    assert src[p..][..|a|] == a && src[p..][|a|..] == b;
    assert src[p..p + |a|] == src[p..][..|a|];
  }

  lemma BareIds(a: F.FrameInfo, b: F.FrameInfo)
    requires H.Bare(a) == H.Bare(b)
    ensures |a.comps| == |b.comps| && F.Ids(a.comps) == F.Ids(b.comps)
  {
    assert |H.Bare(a).comps| == |H.Bare(b).comps|;
    forall i | 0 <= i < |a.comps|
      ensures a.comps[i].id == b.comps[i].id
    {
      assert H.Bare(a).comps[i] == H.Bare(b).comps[i];
    }
  }

  /** The decoder finds the tables the blocks were coded with. */
  lemma TablesFound(c: W.Settings, way: Way, orig: Image, x: Part, cond: A.Conditioning, d: R.Known)
    requires LegalPart(c, way, orig, x) && !c.arith && d.scan == x.scan && |d.frame.comps| == |c.frame.comps|
    requires forall i :: 0 <= i < |x.scan.comps| ==>
               H.ScanUses(c, x.scan, x.huffs, cond, d, c.frame.comps[x.scan.comps[i]], d.frame.comps[x.scan.comps[i]])
    ensures var s := P.ScanOf(InfoOf(x.scan));
      && ValidScan(s) && Readable(s, x.coded.ts) && Readable(s, DecoderTables(d, s))
      && SameTables(s, x.coded.ts, DecoderTables(d, s))
  {
    hide P.AllJobs, AllSegmentsIn, SeesAll, ValidJobs, T.LegalScan, W.LegalHuff, W.HaveHuff;
    var s := P.ScanOf(InfoOf(x.scan));
    EncodableReadable(s, x.coded.ts);
    forall i | 0 <= i < |x.scan.comps|
      ensures UsesDc(s.mode) ==> x.coded.ts[i].dcTable == DecoderTables(d, s)[i].dcTable
      ensures UsesAc(s) ==> x.coded.ts[i].acTable == DecoderTables(d, s)[i].acTable
      ensures ReadableAt(s, DecoderTables(d, s)[i])
    {
      var k, r := c.frame.comps[x.scan.comps[i]], d.frame.comps[x.scan.comps[i]];
      assert H.ScanUses(c, x.scan, x.huffs, cond, d, k, r);
      assert TablesAt(k, x.huffs, s, x.coded.ts[i]) && ReadableAt(s, x.coded.ts[i]);
    }
  }

  /** The marker after the data was met already. */
  lemma MetMarker(src: seq<byte>, o: F.Orders, p: nat, d: R.Known, m: byte, tl: seq<byte>)
    requires F.LegalOrders(o) && H.Ready(d) && p <= |src| && src[p..] == [255, m] + tl && 0 < m < 255
    ensures |tl| <= |src| && R.ReadFrom(src, |src| - |tl|, m, d, o) == R.ReadFrom(src, p, 0, d, o)
  {
    hide R.OneMarker, F.LegalOrders, F.LegalCond, Fetch;
    FetchMarker(m, tl);
    PayloadStep(src[p..]);
    R.EndRest(src[p..]);
  }

  /** What the file needs of the settings. */
  predicate Progressive(c: W.Settings, cond: A.Conditioning)
  {
    W.LegalSettings(c) && !c.arith && c.progressive && T.LegalValues(cond) && F.LegalCond(cond)
  }

  /** A scan header of the file read. */
  lemma PartHeader(src: seq<byte>, c: W.Settings, way: Way, orig: Image, x: Part, cond: A.Conditioning, last: nat,
                   p: nat, d: R.Known)
    returns (after: R.Known)
    requires Progressive(c, cond) && LegalPart(c, way, orig, x) && Informed(c, d, last, x.huffs)
    requires F.Has(src, p, W.ScanHeader(c, x.scan, x.huffs, cond, x.restart, last))
    ensures R.ReadFrom(src, p, 0, d, c.orders)
         == R.Halt(R.AtSos, after, p + |W.ScanHeader(c, x.scan, x.huffs, cond, x.restart, last)|, 0)
    ensures after.scan == x.scan && WalkOf(way, after) == x.coded.walk && |after.frame.comps| == |c.frame.comps|
    ensures Informed(c, after, x.restart, W.AfterDhts(c, x.scan, x.huffs, |x.scan.comps|))
    ensures forall i :: 0 <= i < |x.scan.comps| ==>
              H.ScanUses(c, x.scan, x.huffs, cond, after, c.frame.comps[x.scan.comps[i]],
                         after.frame.comps[x.scan.comps[i]])
  {
    hide F.Has, R.ReadFrom, W.ScanHeader, H.ScanUses, H.HuffsAgree, P.Written, W.LegalSettings, T.LegalValues,
      T.LegalScan, W.HaveHuff, TablesAt, W.LegalHuff, F.LegalCond, W.AfterDhts;
    BareIds(d.frame, c.frame);
    after := H.ScanHeaderRead(src, p, c, x.scan, x.huffs, cond, x.restart, last, d);
    BareIds(after.frame, c.frame);
  }

  /** The data of the scan read: all of it, and what is stored takes the image on. */
  lemma PartData(src: seq<byte>, c: W.Settings, way: Way, orig: Image, x: Part, cond: A.Conditioning, q: nat,
                 d: R.Known, held: Image, m: byte, tl: seq<byte>, scans: seq<ScanInfo>, n: nat, next: Image)
    requires LegalPart(c, way, orig, x) && !c.arith && q <= |src| && 0 < m < 255
    requires src[q..] == ScanBytes(x.coded.codes, 0, [255, m] + tl)
    requires d.scan == x.scan && WalkOf(way, d) == x.coded.walk && |d.frame.comps| == |c.frame.comps|
    requires forall i :: 0 <= i < |x.scan.comps| ==>
               H.ScanUses(c, x.scan, x.huffs, cond, d, c.frame.comps[x.scan.comps[i]], d.frame.comps[x.scan.comps[i]])
    requires ScanScript.ScanOk(scans, InfoOf(x.scan), n) && IsImage(orig) && ImageAt(scans, orig, held)
    ensures var z := Decoded(src, q, d, way, held);
      && z.Complete? && z.ending == At(m, tl) && AllSegmentsIn(x.coded.walk, held)
      && (Stored(x.coded.walk, held, z.blocks, next) ==> ImageAt(scans + [InfoOf(x.scan)], orig, next))
  {
    hide H.ScanUses, P.Written, ScanScript.ScanOk, IsImage, ImageAt, ParseScan, Readable, ValidScan, Stored,
      AllSegmentsIn, SeesAll, SameTables, Advanced, T.LegalScan, W.HaveHuff, TablesAt, W.LegalHuff, ValidSlots;
    TablesFound(c, way, orig, x, cond, d);
    PlacedScan(c, x.scan, d);
    P.ScanRead(scans, x.coded, orig, held, n, m, tl);
    var s, w := P.ScanOf(x.coded.walk.info), x.coded.walk;
    P.WrittenIn(x.coded, orig);
    SameScan(s, x.coded.ts, DecoderTables(d, s), P.AllSlots(w, held), 0, src[q..]);
    P.TargetsAdvance(w, orig, held);
    var blocks := HuffmanRoundTrip.ScanTargets(s, P.AllJobs(w, orig), P.AllSlots(w, held));
    if Stored(w, held, blocks, next) {
      ScanStored(scans, w, orig, held, blocks, next, n);
    }
  }

  lemma PlacedScan(c: W.Settings, s: F.ScanInfo, d: R.Known)
    requires T.LegalScan(c.frame.comps, s) && d.scan == s && |d.frame.comps| == |c.frame.comps|
    ensures Placed(d)
  {
  }

  /** One scan of the file, header and data: the decoder stops at it, decodes it, and is then
      at the next header. */
  lemma PartRead(src: seq<byte>, c: W.Settings, way: Way, orig: Image, x: Part, cond: A.Conditioning, last: nat,
                 follow: seq<byte>, st: State, p: nat, d: R.Known, t: State, scans: seq<ScanInfo>, n: nat)
    returns (after: R.Known)
    requires Progressive(c, cond) && LegalPart(c, way, orig, x) && Informed(c, d, last, x.huffs)
    requires Amounts(src, c.orders, st, p, d) && Step(src, c.orders, way, st, t) && Sound(src, c.orders, t)
    requires src[p..] == W.ScanHeader(c, x.scan, x.huffs, cond, x.restart, last) + ScanBytes(x.coded.codes, 0, follow)
    requires Marked(follow)
    requires ScanScript.ScanOk(scans, InfoOf(x.scan), n) && IsImage(orig) && ImageAt(scans, orig, st.held)
    ensures Taken(src, c.orders, way, st) && ImageAt(scans + [InfoOf(x.scan)], orig, t.held)
    ensures Informed(c, after, x.restart, W.AfterDhts(c, x.scan, x.huffs, |x.scan.comps|))
    ensures |follow| <= |src| && src[|src| - |follow|..] == follow
    ensures Amounts(src, c.orders, t, |src| - |follow|, after)
  {
    hide R.ReadFrom, W.ScanHeader, W.LegalSettings, T.LegalValues, H.HuffsAgree, T.LegalScan, W.HaveHuff, TablesAt,
      W.LegalHuff, P.Written, ScanScript.ScanOk, IsImage, ImageAt, Decoded, Stored, AllSegmentsIn, H.ScanUses,
      F.LegalOrders, W.AfterDhts, ScanBytes;
    var header, data := W.ScanHeader(c, x.scan, x.huffs, cond, x.restart, last), ScanBytes(x.coded.codes, 0, follow);
    var m, tl := follow[1], follow[2..];
    assert follow == [255, m] + tl;
    HasFront(src, p, header, data);
    after := PartHeader(src, c, way, orig, x, cond, last, p, d);
    PartData(src, c, way, orig, x, cond, p + |header|, after, st.held, m, tl, scans, n, t.held);
    DataBefore(src, p + |header|, x.coded.codes, follow);
    MetMarker(src, c.orders, |src| - |follow|, after, m, tl);
  }

  lemma DataBefore(src: seq<byte>, q: nat, codes: seq<seq<byte>>, follow: seq<byte>)
    requires q <= |src| && src[q..] == ScanBytes(codes, 0, follow)
    ensures |follow| <= |src| && src[|src| - |follow|..] == follow
  {
    if codes == [] {
      assert src[|src| - |follow|..] == follow;
    } else {
      ScanBytesRest(codes, 0, follow);
      HasFront(src, q, ScanBytes(codes, 0, []), follow);
      assert q + |ScanBytes(codes, 0, [])| == |src| - |follow|;
    }
  }

  /** The decoder stops at a scan and decodes all of it. */
  ghost predicate Taken(src: seq<byte>, o: F.Orders, way: Way, st: State)
    requires Sound(src, o, st)
  {
    var r := R.ReadFrom(src, st.p, st.m, st.d, o);
    r.stop == R.AtSos && Decoded(src, r.next, r.d, way, st.held).Complete?
  }

  // -------------------------------------------------------------------- the whole file

  /** A run of the decoder: from state to state, scan by scan. */
  ghost predicate Reading(src: seq<byte>, o: F.Orders, way: Way, sts: seq<State>)
  {
    && (forall i :: 0 <= i < |sts| ==> Sound(src, o, sts[i]))
    && forall i :: 0 <= i < |sts| - 1 ==> Step(src, o, way, sts[i], sts[i + 1])
  }

  function Infos(parts: seq<Part>): (r: seq<ScanInfo>)
    ensures |r| == |parts| && forall i :: 0 <= i < |r| ==> r[i] == InfoOf(parts[i].scan)
  {
    seq(|parts|, i requires 0 <= i < |parts| => InfoOf(parts[i].scan))
  }

  lemma NextTables(c: W.Settings, x: Part, y: Part, r: F.HuffTables)
    requires W.ScanOf(c, x.scan) && W.HaveHuff(c, x.scan, x.huffs)
    requires var was := W.AfterDhts(c, x.scan, x.huffs, |x.scan.comps|);
      && H.HuffsAgree(was, r) && SentFrom(y.huffs.dc, was.dc) && SentFrom(y.huffs.ac, was.ac)
    ensures H.HuffsAgree(y.huffs, r)
  {
    hide W.AfterDhts, W.HaveHuff;
  }

  /** At the EOI marker the decoder stops. */
  lemma EoiRead(src: seq<byte>, o: F.Orders, p: nat, d: R.Known, tail: seq<byte>)
    requires F.LegalOrders(o) && H.Ready(d) && p <= |src| && src[p..] == [255, F.EOI] + tail
    ensures R.ReadFrom(src, p, 0, d, o).stop == R.AtEoi
  {
    hide F.LegalOrders, F.LegalCond, Fetch;
    FetchMarker(F.EOI, tail);
    PayloadStep(src[p..]);
    R.EndRest(src[p..]);
  }

  /** The scans `parts` and EOI are next, and the decoder knows what comes before them. */
  ghost predicate Before(src: seq<byte>, c: W.Settings, way: Way, orig: Image, parts: seq<Part>, cond: A.Conditioning,
                         last: nat, tail: seq<byte>, st: State, p: nat, d: R.Known)
  {
    && Progressive(c, cond) && LegalParts(c, way, orig, parts) && Amounts(src, c.orders, st, p, d) && H.Ready(d)
    && src[p..] == Scans(c, way, orig, parts, cond, last, tail)
    && (parts != [] ==> Informed(c, d, last, parts[0].huffs))
  }

  /** After the scans before, and after each of `parts`, every coefficient is at its stage. */
  ghost predicate AllAt(scans: seq<ScanInfo>, parts: seq<Part>, orig: Image, sts: seq<State>)
  {
    |sts| == |parts| + 1 && forall i :: 0 <= i <= |parts| ==> ImageAt(scans + Infos(parts)[..i], orig, sts[i].held)
  }

  /** The decoder decodes a scan in every state but the last, and then meets EOI. */
  ghost predicate ReadsAll(src: seq<byte>, o: F.Orders, way: Way, sts: seq<State>)
    requires sts != [] && Reading(src, o, way, sts)
  {
    && (forall i :: 0 <= i < |sts| - 1 ==> Taken(src, o, way, sts[i]))
    && Ended(src, o, sts[|sts| - 1])
  }

  ghost predicate Ended(src: seq<byte>, o: F.Orders, st: State)
    requires Sound(src, o, st)
  {
    R.ReadFrom(src, st.p, st.m, st.d, o).stop == R.AtEoi
  }

  lemma LastEnds(src: seq<byte>, c: W.Settings, way: Way, orig: Image, cond: A.Conditioning, last: nat,
                 tail: seq<byte>, st: State, p: nat, d: R.Known)
    requires Before(src, c, way, orig, [], cond, last, tail, st, p, d)
    ensures Sound(src, c.orders, st) && Ended(src, c.orders, st)
  {
    hide R.ReadFrom, LegalPart, H.Ready, F.LegalOrders;
    SettingsOf(c, cond);
    EoiRead(src, c.orders, p, d, tail);
  }

  /** The first of the scans is read, and the others are next. */
  lemma FirstRead(src: seq<byte>, c: W.Settings, way: Way, orig: Image, parts: seq<Part>, cond: A.Conditioning,
                  last: nat, tail: seq<byte>, st: State, p: nat, d: R.Known, t: State, scans: seq<ScanInfo>, n: nat)
    returns (q: nat, after: R.Known)
    requires parts != [] && Before(src, c, way, orig, parts, cond, last, tail, st, p, d)
    requires Sound(src, c.orders, st) && Step(src, c.orders, way, st, t) && Sound(src, c.orders, t)
    requires ScanScript.ScanOk(scans, InfoOf(parts[0].scan), n) && IsImage(orig) && ImageAt(scans, orig, st.held)
    ensures Taken(src, c.orders, way, st) && ImageAt(scans + [InfoOf(parts[0].scan)], orig, t.held)
    ensures Before(src, c, way, orig, parts[1..], cond, parts[0].restart, tail, t, q, after)
  {
    hide R.ReadFrom, LegalPart, Informed, Progressive, ScanScript.ScanOk, IsImage, ImageAt, Step, Sound, Taken, H.Ready,
      W.ScanHeader, W.AfterDhts, SentFrom, ScanBytes, Marked;
    var x, rest := parts[0], parts[1..];
    PartFacts(c, way, orig, x);
    SettingsOf(c, cond);
    ScansMarked(c, way, orig, rest, cond, x.restart, tail);
    var follow := Scans(c, way, orig, rest, cond, x.restart, tail);
    after := PartRead(src, c, way, orig, x, cond, last, follow, st, p, d, t, scans, n);
    q := |src| - |follow|;
    NextInformed(c, way, orig, parts, after);
  }

  /** All scans of the file from the decoder's position on. */
  lemma {:induction false} ScansRead(src: seq<byte>, c: W.Settings, way: Way, orig: Image, parts: seq<Part>,
                                     cond: A.Conditioning, last: nat, tail: seq<byte>, sts: seq<State>, p: nat,
                                     d: R.Known, scans: seq<ScanInfo>, n: nat)
    requires |sts| == |parts| + 1 && Before(src, c, way, orig, parts, cond, last, tail, sts[0], p, d)
    requires Reading(src, c.orders, way, sts) && ScanScript.ScansOk(scans + Infos(parts), n) && IsImage(orig)
    requires ImageAt(scans, orig, sts[0].held)
    ensures ReadsAll(src, c.orders, way, sts) && AllAt(scans, parts, orig, sts)
    decreases |parts|
  {
    hide Before, ScanScript.ScanOk, IsImage, ImageAt, Step, Sound, Taken, Ended, Infos;
    if parts == [] {
      LastEnds(src, c, way, orig, cond, last, tail, sts[0], p, d);
      assert scans + Infos(parts)[..0] == scans;
    } else {
      var info := InfoOf(parts[0].scan);
      var infos := scans + Infos(parts);
      assert infos[..|scans|] == scans && infos[|scans|] == info;
      assert infos == (scans + [info]) + Infos(parts[1..]);
      var q, after := FirstRead(src, c, way, orig, parts, cond, last, tail, sts[0], p, d, sts[1], scans, n);
      ScansRead(src, c, way, orig, parts[1..], cond, parts[0].restart, tail, sts[1..], q, after, scans + [info], n);
      forall i | 0 <= i <= |parts|
        ensures ImageAt(scans + Infos(parts)[..i], orig, sts[i].held)
      {
        assert scans + Infos(parts)[..i] == if i == 0 then scans else (scans + [info]) + Infos(parts[1..])[..i - 1];
      }
    }
  }

  lemma SettingsOf(c: W.Settings, cond: A.Conditioning)
    requires Progressive(c, cond)
    ensures W.LegalSettings(c) && !c.arith && F.LegalCond(cond) && F.LegalOrders(c.orders)
  {
  }

  lemma NextInformed(c: W.Settings, way: Way, orig: Image, parts: seq<Part>, d: R.Known)
    requires parts != [] && LegalParts(c, way, orig, parts)
    requires W.ScanOf(c, parts[0].scan) && W.HaveHuff(c, parts[0].scan, parts[0].huffs)
    requires Informed(c, d, parts[0].restart, W.AfterDhts(c, parts[0].scan, parts[0].huffs, |parts[0].scan.comps|))
    ensures H.Ready(d) && LegalParts(c, way, orig, parts[1..])
    ensures |parts| > 1 ==> Informed(c, d, parts[0].restart, parts[1].huffs)
  {
    hide LegalPart, H.HuffsAgree, W.AfterDhts, SentFrom, W.HaveHuff;
    if |parts| > 1 {
      NextTables(c, parts[0], parts[1], d.huff);
    }
  }

  /** A file as it is written: SOI, frame header, scans, EOI, and anything after it. */
  ghost predicate IsFile(src: seq<byte>, c: W.Settings, way: Way, orig: Image, quant: map<nat, F.QuantSlot>,
                         parts: seq<Part>, cond: A.Conditioning, tail: seq<byte>)
  {
    && Progressive(c, cond) && c.blockSize == 8 && LegalParts(c, way, orig, parts)
    && W.LegalQuant(quant) && W.HaveQuant(c, quant) && W.Transformable(c)
    && c.frame.height < 65536 && c.frame.width < 65536
    && src == [255, F.SOI] + (W.FrameHeader(c, quant) + Scans(c, way, orig, parts, cond, 0, tail))
  }

  /** A decoder at the beginning of the file, which knows no tables that the file does not
      rely on. */
  ghost predicate AtStart(c: W.Settings, quant: map<nat, F.QuantSlot>, parts: seq<Part>, st: State)
    requires W.LegalSettings(c) && W.LegalQuant(quant)
  {
    && st.p == 0 && st.m == 0 && !st.d.sawSoi && !st.d.sawSof && F.LegalCond(st.d.cond)
    && H.QuantAgrees(c, quant, st.d.quant) && (parts != [] ==> H.HuffsAgree(parts[0].huffs, st.d.huff))
  }

  lemma SoiRead(src: seq<byte>, d: R.Known, o: F.Orders) returns (after: R.Known)
    requires F.LegalOrders(o) && F.LegalCond(d.cond) && !d.sawSoi && |src| >= 2 && src[0] == 255 && src[1] == F.SOI
    ensures H.Ready(after) && after.restart == 0 && after.sawSof == d.sawSof
    ensures R.ReadFrom(src, 0, 0, d, o) == R.ReadFrom(src, 2, 0, after, o)
    ensures after.quant == d.quant && after.huff == d.huff
  {
    hide F.LegalOrders, End, Payload;
    after := R.SoiStep(2, d).d;
  }

  /** Frame and tables are known, the scans are next. */
  lemma FrontRead(src: seq<byte>, c: W.Settings, way: Way, orig: Image, quant: map<nat, F.QuantSlot>,
                  parts: seq<Part>, cond: A.Conditioning, tail: seq<byte>, st: State)
    returns (p: nat, d: R.Known)
    requires IsFile(src, c, way, orig, quant, parts, cond, tail) && AtStart(c, quant, parts, st)
    ensures Before(src, c, way, orig, parts, cond, 0, tail, st, p, d)
  {
    hide R.ReadFrom, W.FrameHeader, W.LegalSettings, W.LegalQuant, W.HaveQuant, H.QuantAgrees, H.HuffsAgree, AllLegal,
      T.LegalValues, F.Has, F.LegalCond, Scans, H.QuantSame, W.AfterDqts;
    SettingsOf(c, cond);
    var scans := Scans(c, way, orig, parts, cond, 0, tail);
    var front := W.FrameHeader(c, quant);
    assert src[0] == 255 && src[1] == F.SOI && src[2..] == front + scans;
    var begun := SoiRead(src, st.d, c.orders);
    HasFront(src, 2, front, scans);
    d := H.FrameHeaderRead(src, 2, c, quant, begun);
    p := 2 + |front|;
    BareAgain(d.frame, c.frame);
  }

  lemma BareAgain(a: F.FrameInfo, b: F.FrameInfo)
    requires a == b.(comps := T.Plain(b.comps))
    ensures H.Bare(a) == H.Bare(b)
  {
    assert T.Plain(T.Plain(b.comps)) == T.Plain(b.comps);
  }

  /** A whole file read: the decoder stops at every scan and decodes all of it, ends at EOI,
      and after each scan every coefficient is at the last stage the script sent it at. */
  lemma FileRead(src: seq<byte>, c: W.Settings, way: Way, orig: Image, quant: map<nat, F.QuantSlot>,
                 parts: seq<Part>, cond: A.Conditioning, tail: seq<byte>, sts: seq<State>, n: nat)
    requires IsFile(src, c, way, orig, quant, parts, cond, tail) && |sts| == |parts| + 1
    requires AtStart(c, quant, parts, sts[0]) && Reading(src, c.orders, way, sts)
    requires ScanScript.ScansOk(Infos(parts), n) && IsImage(orig) && ImageAt([], orig, sts[0].held)
    ensures ReadsAll(src, c.orders, way, sts) && AllAt([], parts, orig, sts)
  {
    hide IsFile, AtStart, Before, Reading, ScanScript.ScanOk, IsImage, ImageAt, Infos, ReadsAll, AllAt;
    var p, d := FrontRead(src, c, way, orig, quant, parts, cond, tail, sts[0]);
    assert [] + Infos(parts) == Infos(parts);
    ScansRead(src, c, way, orig, parts, cond, 0, tail, sts, p, d, [], n);
  }

  /** A file with the recommended script gives back the image. */
  lemma SimpleFileRead(src: seq<byte>, c: W.Settings, way: Way, orig: Image, quant: map<nat, F.QuantSlot>,
                       parts: seq<Part>, cond: A.Conditioning, tail: seq<byte>, sts: seq<State>, ycc: bool)
    requires IsFile(src, c, way, orig, quant, parts, cond, tail) && |sts| == |parts| + 1
    requires AtStart(c, quant, parts, sts[0]) && Reading(src, c.orders, way, sts)
    requires 1 <= |orig| && Infos(parts) == SimpleProgression.Script(|orig|, ycc)
    requires IsImage(orig) && ImageAt([], orig, sts[0].held)
    ensures ReadsAll(src, c.orders, way, sts) && sts[|parts|].held == orig
  {
    hide IsFile, AtStart, Reading, ScanScript.ScanOk, ScanScript.LastAl, ImageAt, ReadsAll, SimpleProgression.Script;
    SimpleProgression.SimpleLegal(|orig|, ycc);
    FileRead(src, c, way, orig, quant, parts, cond, tail, sts, |orig|);
    assert [] + Infos(parts)[..|parts|] == Infos(parts);
    SimpleExact(orig, sts[|parts|].held, ycc);
  }
}
