/** Decoding a block of any size in sequential mode (jdhuff.c), where coefficients
    that are not needed are skipped. */
module HuffmanMcuDecoding {
  import opened BitStreams
  import opened Coefficients
  import opened HuffmanCode
  import opened HuffmanTables
  import opened HuffmanReader
  import opened HuffmanBlock

  // ------------------------------------------------------------ specification

  /** The position after the AC coefficients from `k` on, whose values are dropped. */
  function SkipAc(t: Table, s: seq<bit>, pos: nat, k: nat, se: nat): nat
    requires Suits(t, k, se) && se < 64
    decreases se + 1 - k
  {
    if k > se then pos
    else
      var (y, p) := Decode(t, s, pos);
      if y % 16 != 0 then SkipAc(t, s, p + y % 16, k + y / 16 + 1, se)
      else if y / 16 == 15 then SkipAc(t, s, p, k + 16, se)
      else p
  }

  /** Values are stored while the position is below `limit`, then skipped. */
  function ParseAcLimited(t: Table, s: seq<bit>, pos: nat, k: nat, se: nat, limit: nat, b: Zigzag): (r: (Zigzag, nat))
    requires Suits(t, k, se) && se < 64 && limit <= se + 1
    decreases se + 1 - k
  {
    if k >= limit then (b, SkipAc(t, s, pos, k, se))
    else
      var (y, p) := Decode(t, s, pos);
      var r, n := y / 16, y % 16;
      if n != 0 then
        ParseAcLimited(t, s, p + n, k + r + 1, se, limit,
                       b[Place(k + r, se) := ToCoef(Extend(Window(s, p, n), n))])
      else if r == 15 then ParseAcLimited(t, s, p, k + 16, se, limit, b)
      else (b, p)
  }

  /** A block with `limit` wanted coefficients; 0 skips the block. */
  function ParseLimited(dct: Table, act: Table, last: int, se: nat, limit: nat, s: seq<bit>, pos: nat, b: Zigzag)
    : (r: (Zigzag, int, nat))
    requires WellFormed(dct) && Upto(dct.bits, 16) <= 256 && Suits(act, 1, se) && se < 64
    requires limit <= se + 1
  {
    var (diff, p) := ParseDcDiff(dct, s, pos);
    if limit == 0 then (b, last, SkipAc(act, s, p, 1, se))
    else
      var (c, q) := ParseAcLimited(act, s, p, 1, se, limit, b[0 := ToCoef(last + diff)]);
      (c, last + diff, q)
  }

  /** Skipping reads as far as storing, and what follows changes nothing below. */
  lemma {:induction false} SkipSame(t: Table, s: seq<bit>, pos: nat, k: nat, se: nat, b: Zigzag, limit: nat)
    requires Suits(t, k, se) && se < 64 && limit <= k && limit <= se + 1
    ensures ParseAc(t, s, pos, k, se, b).1 == SkipAc(t, s, pos, k, se)
    ensures forall j :: 0 <= j < limit ==> ParseAc(t, s, pos, k, se, b).0[j] == b[j]
    decreases se + 1 - k
  {
    hide Decode, Extend, Window, ToCoef;
    if k <= se {
      var (y, p) := Decode(t, s, pos);
      var r, n := y / 16, y % 16;
      if n != 0 {
        SkipSame(t, s, p + n, k + r + 1, se, b[Place(k + r, se) := ToCoef(Extend(Window(s, p, n), n))], limit);
      } else if r == 15 {
        SkipSame(t, s, p, k + 16, se, b, limit);
      }
    }
  }

  lemma {:induction false} LimitedSame(t: Table, s: seq<bit>, pos: nat, k: nat, se: nat, limit: nat, b: Zigzag)
    requires Suits(t, k, se) && se < 64 && limit <= se + 1
    ensures var full, part := ParseAc(t, s, pos, k, se, b), ParseAcLimited(t, s, pos, k, se, limit, b);
      full.1 == part.1 && forall j :: 0 <= j < limit ==> full.0[j] == part.0[j]
    decreases se + 1 - k
  {
    hide Decode, Extend, Window, ToCoef;
    if k >= limit {
      SkipSame(t, s, pos, k, se, b, limit);
    } else {
      var (y, p) := Decode(t, s, pos);
      var r, n := y / 16, y % 16;
      if n != 0 {
        LimitedSame(t, s, p + n, k + r + 1, se, limit,
                    b[Place(k + r, se) := ToCoef(Extend(Window(s, p, n), n))]);
      } else if r == 15 {
        LimitedSame(t, s, p, k + 16, se, limit, b);
      }
    }
  }

  /** On any bit stream a smaller limit reads the same bits and gives the same
      coefficients below the limit, and the same DC value unless it is zero. */
  lemma SkippingSafe(dct: Table, act: Table, last: int, se: nat, limit: nat, s: seq<bit>, pos: nat, b: Zigzag)
    requires WellFormed(dct) && Upto(dct.bits, 16) <= 256 && Suits(act, 1, se) && se < 64
    requires limit <= se + 1
    ensures var full, part := ParseLimited(dct, act, last, se, se + 1, s, pos, b),
                              ParseLimited(dct, act, last, se, limit, s, pos, b);
      && full.2 == part.2 && (0 < limit ==> full.1 == part.1)
      && forall j :: 0 <= j < limit ==> full.0[j] == part.0[j]
  {
    hide ParseDcDiff, ToCoef, ParseAc, ParseAcLimited, SkipAc;
    var (diff, p) := ParseDcDiff(dct, s, pos);
    var c := b[0 := ToCoef(last + diff)];
    LimitedSame(act, s, p, 1, se, se + 1, c);
    LimitedSame(act, s, p, 1, se, limit, c);
    SkipSame(act, s, p, 1, se, c, 0);
  }

  /** A block to decode: its component, how many coefficients are wanted, what it holds. */
  datatype WantedBlock = WantedBlock(ci: nat, limit: nat, held: Zigzag)

  predicate ValidTables(dct: seq<Table>, act: seq<Table>, se: nat)
  {
    && |dct| == |act| && se < 64
    && forall i :: 0 <= i < |dct| ==>
         WellFormed(dct[i]) && Upto(dct[i].bits, 16) <= 256 && Suits(act[i], 1, se)
  }

  predicate ValidWanted(blocks: seq<WantedBlock>, components: nat, se: nat)
  {
    forall i :: 0 <= i < |blocks| ==> blocks[i].ci < components && blocks[i].limit <= se + 1
  }

  /** Nothing is wanted of a component's blocks exactly when the component is not needed. */
  predicate ByComponent(blocks: seq<WantedBlock>, needed: set<nat>)
  {
    forall i :: 0 <= i < |blocks| ==> (0 < blocks[i].limit <==> blocks[i].ci in needed)
  }

  /** The same blocks with every coefficient wanted. */
  function AllWanted(blocks: seq<WantedBlock>, se: nat): (r: seq<WantedBlock>)
    ensures |r| == |blocks|
    ensures forall i :: 0 <= i < |r| ==> r[i] == blocks[i].(limit := se + 1)
  {
    if blocks == [] then [] else [blocks[0].(limit := se + 1)] + AllWanted(blocks[1..], se)
  }

  /** Blocks of MCUs, one after the other, with the DC predictions per component. */
  function ParseWanted(dct: seq<Table>, act: seq<Table>, last: seq<int>, se: nat, blocks: seq<WantedBlock>, s: seq<bit>,
                       pos: nat)
    : (r: (seq<Zigzag>, seq<int>, nat))
    requires ValidTables(dct, act, se) && |last| == |dct| && ValidWanted(blocks, |dct|, se)
    ensures |r.0| == |blocks| && |r.1| == |last|
    decreases |blocks|
  {
    if blocks == [] then ([], last, pos)
    else
      var block := blocks[0];
      var (b, dc, p) := ParseLimited(dct[block.ci], act[block.ci], last[block.ci], se, block.limit, s, pos, block.held);
      var (rest, after, q) := ParseWanted(dct, act, last[block.ci := dc], se, blocks[1..], s, p);
      ([b] + rest, after, q)
  }

  /** Where a block ends does not depend on the prediction or the limit. */
  lemma EndSame(dct: Table, act: Table, last: int, se: nat, limit: nat, s: seq<bit>, pos: nat, b: Zigzag)
    requires WellFormed(dct) && Upto(dct.bits, 16) <= 256 && Suits(act, 1, se) && se < 64
    requires limit <= se + 1
    ensures ParseLimited(dct, act, last, se, limit, s, pos, b).2 == SkipAc(act, s, ParseDcDiff(dct, s, pos).1, 1, se)
  {
    hide ParseDcDiff, ToCoef, ParseAc, ParseAcLimited, SkipAc;
    var (diff, p) := ParseDcDiff(dct, s, pos);
    var c := b[0 := ToCoef(last + diff)];
    LimitedSame(act, s, p, 1, se, limit, c);
    SkipSame(act, s, p, 1, se, c, 0);
  }

  /** Per-block limits are safe for whole MCUs: on any bit stream decoding ends at the same
      bit, and every coefficient below its block's limit and the predictions of the needed
      components are those of a decoder that stores everything. */
  lemma {:induction false} McusSkippingSafe(dct: seq<Table>, act: seq<Table>, last: seq<int>, part: seq<int>, se: nat,
                                            blocks: seq<WantedBlock>, needed: set<nat>, s: seq<bit>, pos: nat)
    requires ValidTables(dct, act, se) && |last| == |part| == |dct| && ValidWanted(blocks, |dct|, se)
             && ByComponent(blocks, needed)
    requires forall c :: 0 <= c < |last| && c in needed ==> last[c] == part[c]
    ensures ValidWanted(AllWanted(blocks, se), |dct|, se)
    ensures var full := ParseWanted(dct, act, last, se, AllWanted(blocks, se), s, pos);
      var some := ParseWanted(dct, act, part, se, blocks, s, pos);
      && full.2 == some.2
      && (forall c :: 0 <= c < |last| && c in needed ==> full.1[c] == some.1[c])
      && forall i, j :: 0 <= i < |blocks| && 0 <= j < blocks[i].limit ==> full.0[i][j] == some.0[i][j]
    decreases |blocks|
  {
    hide ParseLimited, SkipAc, ParseDcDiff, Upto;
    if blocks != [] {
      var block := blocks[0];
      var d, a := dct[block.ci], act[block.ci];
      assert AllWanted(blocks, se)[1..] == AllWanted(blocks[1..], se);
      assert AllWanted(blocks, se)[0] == block.(limit := se + 1);
      EndSame(d, a, last[block.ci], se, se + 1, s, pos, block.held);
      EndSame(d, a, part[block.ci], se, block.limit, s, pos, block.held);
      SkippingSafe(d, a, part[block.ci], se, block.limit, s, pos, block.held);
      var full := ParseLimited(d, a, last[block.ci], se, se + 1, s, pos, block.held);
      var some := ParseLimited(d, a, part[block.ci], se, block.limit, s, pos, block.held);
      McusSkippingSafe(dct, act, last[block.ci := full.1], part[block.ci := some.1], se, blocks[1..], needed, s,
                       some.2);
    }
  }

  /** With all coefficients wanted nothing is skipped. */
  lemma {:induction false} NoneSkipped(t: Table, s: seq<bit>, pos: nat, k: nat, se: nat, b: Zigzag)
    requires Suits(t, k, se) && se < 64
    ensures ParseAcLimited(t, s, pos, k, se, se + 1, b) == ParseAc(t, s, pos, k, se, b)
    decreases se + 1 - k
  {
    hide Decode, Extend, Window, ToCoef;
    if k <= se {
      var (y, p) := Decode(t, s, pos);
      var r, n := y / 16, y % 16;
      if n != 0 {
        NoneSkipped(t, s, p + n, k + r + 1, se, b[Place(k + r, se) := ToCoef(Extend(Window(s, p, n), n))]);
      } else if r == 15 {
        NoneSkipped(t, s, p, k + 16, se, b);
      }
    }
  }

  lemma WantedAll(dct: Table, act: Table, last: int, se: nat, s: seq<bit>, pos: nat, b: Zigzag)
    requires WellFormed(dct) && Upto(dct.bits, 16) <= 256 && Suits(act, 1, se) && se < 64
    ensures var (diff, p) := ParseDcDiff(dct, s, pos);
      var (c, q) := ParseAc(act, s, p, 1, se, b[0 := ToCoef(last + diff)]);
      ParseLimited(dct, act, last, se, se + 1, s, pos, b) == (c, last + diff, q)
  {
    hide ParseDcDiff, ToCoef, ParseAc, ParseAcLimited;
    var (diff, p) := ParseDcDiff(dct, s, pos);
    var c := b[0 := ToCoef(last + diff)];
    NoneSkipped(act, s, p, 1, se, c);
  }

  // ------------------------------------------------- blocks of an aborted attempt

  /** Every coefficient is the old or the final one, and in a refinement scan those
      that were zero still are. */
  predicate Touched(refine: bool, cur: Zigzag, base: Zigzag, final: Zigzag)
  {
    forall j :: 0 <= j < 64 ==> TouchedAt(refine, cur[j], base[j], final[j])
  }

  predicate TouchedAt(refine: bool, c: int, b: int, f: int)
  {
    (c == b || c == f) && (refine ==> (c == 0 <==> b == 0))
  }

  /** Coefficients before position `k` are not touched any more, nor are any from the limit on. */
  lemma {:induction false} AcBelow(t: Table, s: seq<bit>, pos: nat, k: nat, se: nat, limit: nat, b: Zigzag)
    requires Suits(t, k, se) && se < 64 && limit <= se + 1
    ensures forall j :: 0 <= j < 64 && (j < k || limit <= k) ==> ParseAcLimited(t, s, pos, k, se, limit, b).0[j] == b[j]
    decreases se + 1 - k
  {
    hide Decode, Extend, Window, ToCoef, SkipAc;
    if k < limit {
      var (y, p) := Decode(t, s, pos);
      var r, n := y / 16, y % 16;
      if n != 0 {
        AcBelow(t, s, p + n, k + r + 1, se, limit, b[Place(k + r, se) := ToCoef(Extend(Window(s, p, n), n))]);
      } else if r == 15 {
        AcBelow(t, s, p, k + 16, se, limit, b);
      }
    }
  }

  /** What is stored, and where, does not depend on what the block held. */
  lemma {:induction false} AcStores(t: Table, s: seq<bit>, pos: nat, k: nat, se: nat, limit: nat, b: Zigzag, c: Zigzag)
    requires Suits(t, k, se) && se < 64 && limit <= se + 1
    ensures var x, y := ParseAcLimited(t, s, pos, k, se, limit, b), ParseAcLimited(t, s, pos, k, se, limit, c);
      x.1 == y.1 && forall j :: 0 <= j < 64 ==> x.0[j] == y.0[j] || (x.0[j] == b[j] && y.0[j] == c[j])
    decreases se + 1 - k
  {
    hide Decode, Extend, Window, ToCoef, SkipAc;
    if k < limit {
      var (y, p) := Decode(t, s, pos);
      var r, n := y / 16, y % 16;
      if n != 0 {
        var q, v := Place(k + r, se), ToCoef(Extend(Window(s, p, n), n));
        AcStores(t, s, p + n, k + r + 1, se, limit, b[q := v], c[q := v]);
      } else if r == 15 {
        AcStores(t, s, p, k + 16, se, limit, b, c);
      }
    }
  }

  /** A block that an attempt has touched need not be cleared before the next one. */
  lemma SameFromPartial(dct: Table, act: Table, last: int, se: nat, limit: nat, s: seq<bit>, pos: nat, cur: Zigzag,
                        base: Zigzag)
    requires WellFormed(dct) && Upto(dct.bits, 16) <= 256 && Suits(act, 1, se) && se < 64
    requires limit <= se + 1
    requires Touched(false, cur, base, ParseLimited(dct, act, last, se, limit, s, pos, base).0)
    ensures ParseLimited(dct, act, last, se, limit, s, pos, cur)
         == ParseLimited(dct, act, last, se, limit, s, pos, base)
  {
    hide ParseDcDiff, ToCoef, ParseAcLimited, SkipAc;
    var (diff, p) := ParseDcDiff(dct, s, pos);
    var v := ToCoef(last + diff);
    var x := ParseLimited(dct, act, last, se, limit, s, pos, cur).0;
    var y := ParseLimited(dct, act, last, se, limit, s, pos, base).0;
    AcStores(act, s, p, 1, se, limit, cur[0 := v], base[0 := v]);
    AcBelow(act, s, p, 1, se, limit, cur[0 := v]);
    AcBelow(act, s, p, 1, se, limit, base[0 := v]);
    forall j | 0 <= j < 64
      ensures x[j] == y[j]
    {
      assert TouchedAt(false, cur[j], base[j], y[j]);
    }
    assert x == y;
  }

  // ------------------------------------------------------------------ decoding

  ghost predicate Decoder(t: Table, d: DTable)
  {
    WellFormed(t) && Upto(t.bits, 16) <= 256 && DecodesTable(t, d) && forall p :: 0 <= p < 256 ==> t.vals[p] < 256
  }

  lemma DecoderMeans(t: Table, d: DTable)
    requires Decoder(t, d)
    ensures WellFormed(t) && Upto(t.bits, 16) <= 256 && DecodesTable(t, d)
  {
  }

  /** The table is derived if a coefficient from `k` to `se` is to be decoded. */
  ghost predicate DecodesBand(t: Table, d: DTable, k: nat, se: nat)
  {
    WellFormed(t) && se < 64 && (k <= se ==> Decoder(t, d))
  }

  lemma DecodesBandMeans(t: Table, d: DTable, k: nat, se: nat)
    requires DecodesBand(t, d, k, se)
    ensures Suits(t, k, se) && se < 64 && forall j :: k <= j ==> Suits(t, j, se) && DecodesBand(t, d, j, se)
    ensures k <= se ==> Decoder(t, d) && DecodesTable(t, d) && WellFormed(t) && Upto(t.bits, 16) <= 256
  {
  }

  lemma SymbolSmall(t: Table, d: DTable, s: seq<bit>, pos: nat)
    requires Decoder(t, d)
    ensures WellFormed(t) && Upto(t.bits, 16) <= 256 && Decode(t, s, pos).0 < 256
  {
  }

  twostate predicate SameSegment(r: BitReader)
    reads r
  {
    && r.Valid() && r.data == old(r.data) && r.ending == old(r.ending) && r.src == old(r.src)
       && r.supplied == old(r.supplied)
    && old(r.at) <= r.at
    && (r.unread == 0 ==> old(r.unread) == 0 && r.insufficient == old(r.insufficient))
  }

  /** When the input runs out in the middle of an MCU, the reader can go back to
      where the MCU began. */
  twostate lemma GoBack(r: BitReader)
    requires old(r.Valid()) && SameSegment(r) && r.Stopped()
    ensures r.Starved() && old(r.pos) <= r.supplied <= |r.src|
    ensures InSync(r.data, r.ending, old(r.buffer), old(r.left), r.src, old(r.pos), r.unread, old(r.at))
    ensures !r.insufficient ==> old(r.at) + old(r.left) <= 8 * |r.data|
  {
  }

  twostate lemma StillSame(r: BitReader)
    requires SameSegment(r)
    ensures r.data == old(r.data) && r.ending == old(r.ending) && r.src == old(r.src)
    ensures r.supplied == old(r.supplied) && r.Valid()
  {
  }

  /** Zeros are only made up for reading past the end of the segment. */
  twostate predicate Supplied(r: BitReader)
    reads r
  {
    r.insufficient ==> old(r.insufficient) || 8 * |r.data| < r.at
  }

  twostate lemma SuppliedMeans(r: BitReader)
    requires SameSegment(r)
    ensures old(r.at) <= r.at && r.data == old(r.data)
    ensures r.Stopped() ==> r.insufficient == old(r.insufficient)
    ensures Supplied(r) <==> (r.insufficient ==> old(r.insufficient) || 8 * |r.data| < r.at)
  {
  }

  /** The value of `n` extra bits. */
  method GetExtended(r: BitReader, n: nat) returns (ok: bool, v: int)
    requires r.Valid() && 0 < n <= 15
    modifies r
    ensures SameSegment(r) && (if ok then Supplied(r) else r.Stopped())
    ensures ok ==> r.at == old(r.at) + n && v == Extend(Window(Unpack(r.data), old(r.at), n), n)
  {
    hide BitReader.Valid, Extend, Window, Unpack;
    v := 0;
    ok := r.CheckBitBuffer(n);
    if ok {
      var bits := r.GetBits(n);
      v := Extend(bits, n);
    }
  }

  /** The DC difference; its bits are dropped when `wanted` is false. */
  method DecodeDc(r: BitReader, t: Table, d: DTable, wanted: bool) returns (ok: bool, diff: int)
    requires r.Valid() && Decoder(t, d) && forall p :: 0 <= p < Upto(t.bits, 16) ==> t.vals[p] <= 15
    modifies r
    ensures SameSegment(r) && (if ok then Supplied(r) else r.Stopped())
    ensures ok ==>
              var v := ParseDcDiff(t, Unpack(r.data), old(r.at)); r.at == v.1 && (wanted ==> diff == v.0)
  {
    hide BitReader.Valid, Extend, Window, Unpack, Decode, DecodesTable, Next, Upto, Decoder;
    DecoderMeans(t, d);
    DcSymbolSmall(t, Unpack(r.data), r.at);
    diff := 0;
    var s;
    ok, s := r.HuffDecode(t, d);
    if ok && s != 0 {
      if wanted {
        ok, diff := GetExtended(r, s);
      } else {
        ok := r.CheckBitBuffer(s);
        if ok {
          r.DropBits(s);
        }
      }
    }
  }

  lemma DcSymbolSmall(t: Table, s: seq<bit>, pos: nat)
    requires WellFormed(t) && Upto(t.bits, 16) <= 256
    requires forall p :: 0 <= p < Upto(t.bits, 16) ==> t.vals[p] <= 15
    ensures Decode(t, s, pos).0 <= 15
  {
    hide Next, Window;
  }

  lemma LimitedStep(t: Table, s: seq<bit>, pos: nat, k: nat, se: nat, limit: nat, b: Zigzag)
    requires Suits(t, k, se) && se < 64 && limit <= se + 1
    ensures k >= limit ==> ParseAcLimited(t, s, pos, k, se, limit, b) == (b, SkipAc(t, s, pos, k, se))
    ensures k < limit ==>
      var (y, p) := Decode(t, s, pos);
      var r, n := y / 16, y % 16;
      ParseAcLimited(t, s, pos, k, se, limit, b)
      == if n != 0 then ParseAcLimited(t, s, p + n, k + r + 1, se, limit,
                                       b[Place(k + r, se) := ToCoef(Extend(Window(s, p, n), n))])
         else if r == 15 then ParseAcLimited(t, s, p, k + 16, se, limit, b)
         else (b, p)
  {
    hide Decode, Extend, Window, ToCoef;
  }

  lemma SkipStep(t: Table, s: seq<bit>, pos: nat, k: nat, se: nat)
    requires Suits(t, k, se) && se < 64
    ensures k > se ==> SkipAc(t, s, pos, k, se) == pos
    ensures k <= se ==>
      var (y, p) := Decode(t, s, pos);
      SkipAc(t, s, pos, k, se)
      == if y % 16 != 0 then SkipAc(t, s, p + y % 16, k + y / 16 + 1, se)
         else if y / 16 == 15 then SkipAc(t, s, p, k + 16, se) else p
  {
    hide Decode, Extend, Window, ToCoef;
  }

  /** Drop the AC coefficients from position `k` on. */
  method SkipCoefs(r: BitReader, t: Table, d: DTable, from: nat, se: nat) returns (ok: bool)
    requires r.Valid() && DecodesBand(t, d, from, se)
    modifies r
    ensures Suits(t, from, se) && se < 64
    ensures SameSegment(r) && (if ok then Supplied(r) else r.Stopped())
    ensures ok ==> r.at == SkipAc(t, Unpack(r.data), old(r.at), from, se)
  {
    hide Suits, DecodesBand, BitReader.Valid, Unpack, Decode, DecodesTable, Next, Upto, Decoder, SkipAc;
    DecodesBandMeans(t, d, from, se);
    var k := from;
    while k <= se
      invariant SameSegment(r) && Supplied(r)
      invariant SkipAc(t, Unpack(r.data), old(r.at), from, se) == SkipAc(t, Unpack(r.data), r.at, k, se)
      decreases se + 1 - k
    {
      SkipStep(t, Unpack(r.data), r.at, k, se);
      SymbolSmall(t, d, Unpack(r.data), r.at);
      var s;
      ok, s := r.HuffDecode(t, d);
      if !ok {
        return;
      }
      var run, n := s / 16, s % 16;
      if n != 0 {
        k := k + run;
        ok := r.CheckBitBuffer(n);
        if !ok {
          return;
        }
        r.DropBits(n);
      } else {
        if run != 15 {
          return true;
        }
        k := k + 15;
      }
      k := k + 1;
    }
    SkipStep(t, Unpack(r.data), r.at, k, se);
    ok := true;
  }

  /** The AC coefficients below `limit`, then the rest dropped. */
  method DecodeAc(r: BitReader, t: Table, d: DTable, order: seq<nat>, block: array<int>, se: nat, limit: nat)
    returns (ok: bool)
    requires r.Valid() && DecodesBand(t, d, 1, se) && IsOrder(order) && block.Length == 64 && limit <= se + 1
    requires IsJcoef(Held(order, block))
    modifies r, block
    ensures IsJcoef(Held(order, block))
    ensures Suits(t, 1, se) && se < 64
    ensures SameSegment(r) && (if ok then Supplied(r) else r.Stopped())
    ensures ok ==>
              (Held(order, block), r.at)
              == ParseAcLimited(t, Unpack(r.data), old(r.at), 1, se, limit, old(Held(order, block)))
    ensures Touched(false, Held(order, block), old(Held(order, block)),
                    ParseAcLimited(t, Unpack(r.data), old(r.at), 1, se, limit, old(Held(order, block))).0)
  {
    hide Suits, DecodesBand, BitReader.Valid, Unpack, Decode, DecodesTable, Next, Upto, Decoder, SkipAc, ParseAcLimited,
      Held, IsOrder, ToCoef, Extend, Window, IsJcoef;
    ghost var before := Held(order, block);
    DecodesBandMeans(t, d, 1, se);
    var k := 1;
    ghost var all := ParseAcLimited(t, Unpack(r.data), r.at, 1, se, limit, Held(order, block));
    while k < limit
      invariant SameSegment(r) && Supplied(r) && IsJcoef(Held(order, block))
      invariant all == ParseAcLimited(t, Unpack(r.data), r.at, k, se, limit, Held(order, block))
      invariant Touched(false, Held(order, block), before, all.0)
      decreases limit - k
    {
      LimitedStep(t, Unpack(r.data), r.at, k, se, limit, Held(order, block));
      SymbolSmall(t, d, Unpack(r.data), r.at);
      var s, v;
      ok, s := r.HuffDecode(t, d);
      if !ok {
        return;
      }
      var run, n := s / 16, s % 16;
      if n != 0 {
        k := k + run;
        ok, v := GetExtended(r, n);
        if !ok {
          return;
        }
        JcoefStore(Held(order, block), Place(k, se), ToCoef(v));
        Store(order, block, Place(k, se), ToCoef(v));
        AcBelow(t, Unpack(r.data), r.at, k + 1, se, limit, Held(order, block));
      } else {
        if run != 15 {
          return true;
        }
        k := k + 15;
      }
      k := k + 1;
    }
    LimitedStep(t, Unpack(r.data), r.at, k, se, limit, Held(order, block));
    ok := SkipCoefs(r, t, d, k, se);
  }

  /** One block; not `ok` when the input runs out, which suspends the MCU. */
  method DecodeBlock(r: BitReader, dct: Table, dcd: DTable, act: Table, acd: DTable, order: seq<nat>,
                     block: array<int>, last: int, se: nat, limit: nat) returns (ok: bool, dc: int)
    requires r.Valid() && Decoder(dct, dcd) && DecodesBand(act, acd, 1, se) && IsOrder(order) && block.Length == 64
    requires (forall p :: 0 <= p < Upto(dct.bits, 16) ==> dct.vals[p] <= 15) && limit <= se + 1
    requires IsJcoef(Held(order, block))
    modifies r, block
    ensures IsJcoef(Held(order, block))
    ensures Suits(act, 1, se) && se < 64
    ensures SameSegment(r) && (if ok then Supplied(r) else r.Stopped())
    ensures ok ==>
              (Held(order, block), dc, r.at)
              == ParseLimited(dct, act, last, se, limit, Unpack(r.data), old(r.at), old(Held(order, block)))
    ensures Touched(false, Held(order, block), old(Held(order, block)),
                    ParseLimited(dct, act, last, se, limit, Unpack(r.data), old(r.at), old(Held(order, block))).0)
  {
    hide Suits, DecodesBand, BitReader.Valid, Unpack, Decoder, ParseDcDiff, SkipAc, ParseAcLimited, Held, Upto;
    DecoderMeans(dct, dcd);
    DecodesBandMeans(act, acd, 1, se);
    var diff;
    ok, diff := DecodeDc(r, dct, dcd, limit != 0);
    dc := last;
    if !ok {
      return;
    }
    if limit != 0 {
      dc := last + diff;
      JcoefStore(Held(order, block), 0, ToCoef(dc));
      Store(order, block, 0, ToCoef(dc));
      AcBelow(act, Unpack(r.data), r.at, 1, se, limit, Held(order, block));
      ok := DecodeAc(r, act, acd, order, block, se, limit);
    } else {
      ok := SkipCoefs(r, act, acd, 1, se);
    }
  }
}
