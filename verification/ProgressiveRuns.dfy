/** End-of-band runs over the blocks of a progressive AC segment: the decoder gets every
    block back although the encoder sends a run only after its last block. */
module ProgressiveRuns {
  import opened Powers
  import opened BitStreams
  import opened Coefficients
  import opened HuffmanCode
  import opened HuffmanTables
  import opened HuffmanBlock
  import opened ProgressiveTokens
  import opened ProgressiveBand

  /** A block to decode: what it holds, the position reached in its band, and the
      values from there on that were sent. */
  datatype Unit = Unit(b: Zigzag, k: nat, c: seq<int>)

  ghost predicate UnitReady(refine: bool, u: Unit, se: nat, p1: nat)
  {
    && 0 < p1 && se < 64 && u.k + |u.c| == se + 1 && u.c != []
    && Prepared(refine, u.b, u.k, u.c, p1) && SmallFresh(refine, u.c)
  }

  ghost predicate AllReady(refine: bool, us: seq<Unit>, se: nat, p1: nat)
  {
    forall i :: 0 <= i < |us| ==> UnitReady(refine, us[i], se, p1)
  }

  predicate Tails(refine: bool, us: seq<Unit>)
  {
    forall i :: 0 <= i < |us| ==> NoneFresh(refine, us[i].c)
  }

  function UnitDone(u: Unit, p1: nat): Zigzag
  {
    if u.k + |u.c| <= 64 then Done(u.b, u.k, u.c, p1) else u.b
  }

  function AllDone(us: seq<Unit>, p1: nat): (bs: seq<Zigzag>)
    ensures |bs| == |us| && forall i :: 0 <= i < |us| ==> bs[i] == UnitDone(us[i], p1)
  {
    if us == [] then [] else [UnitDone(us[0], p1)] + AllDone(us[1..], p1)
  }

  function TailBits(refine: bool, us: seq<Unit>): seq<bit>
  {
    if us == [] then [] else Corrections(refine, us[0].c) + TailBits(refine, us[1..])
  }

  lemma {:induction false} TailBitsSnoc(refine: bool, us: seq<Unit>, u: Unit)
    ensures TailBits(refine, us + [u]) == TailBits(refine, us) + Corrections(refine, u.c)
    decreases |us|
  {
    hide Corrections;
    if us == [] {
      assert [u][1..] == [] && us + [u] == [u];
    } else {
      assert (us + [u])[1..] == us[1..] + [u];
      TailBitsSnoc(refine, us[1..], u);
    }
  }

  function ParseUnits(refine: bool, t: Table, us: seq<Unit>, run: nat, se: nat, p1: nat, s: seq<bit>, pos: nat)
    : (seq<Zigzag>, nat, nat)
    requires 0 < p1 && se < 64 && WellFormed(t) && Upto(t.bits, 16) <= 256
    decreases |us|
  {
    if us == [] then ([], run, pos)
    else
      var (b, r, p) := BlockBand(refine, t, us[0].b, us[0].k, run, se, p1, s, pos);
      var (rest, left, q) := ParseUnits(refine, t, us[1..], r, se, p1, s, p);
      ([b] + rest, left, q)
  }

  lemma {:induction false} ParseSplit(refine: bool, t: Table, us: seq<Unit>, vs: seq<Unit>, run: nat, se: nat, p1: nat,
                                      s: seq<bit>, pos: nat)
    requires 0 < p1 && se < 64 && WellFormed(t) && Upto(t.bits, 16) <= 256
    ensures var (x, r, p) := ParseUnits(refine, t, us, run, se, p1, s, pos);
      var (y, l, q) := ParseUnits(refine, t, vs, r, se, p1, s, p);
      ParseUnits(refine, t, us + vs, run, se, p1, s, pos) == (x + y, l, q)
    decreases |us|
  {
    hide BlockBand;
    if us == [] {
      assert us + vs == vs;
      var y := ParseUnits(refine, t, vs, run, se, p1, s, pos).0;
      assert [] + y == y;
    } else {
      assert (us + vs)[1..] == us[1..] + vs;
      var (b, r, p) := BlockBand(refine, t, us[0].b, us[0].k, run, se, p1, s, pos);
      ParseSplit(refine, t, us[1..], vs, r, se, p1, s, p);
      var (x, r2, p2) := ParseUnits(refine, t, us[1..], r, se, p1, s, p);
      Regroup([b], x, ParseUnits(refine, t, vs, r2, se, p1, s, p2).0);
    }
  }

  // ------------------------------------------------------------ tokens in a stream

  ghost predicate InStream(ks: seq<Token>, dc: CTable, ac: CTable, s: seq<bit>, pos: nat)
    requires |dc.ehufco| == |dc.ehufsi| == |ac.ehufco| == |ac.ehufsi| == 256
  {
    HaveCodes(ks, dc, ac) && Holds(s, pos, TokensBits(ks, dc, ac))
  }

  lemma InStreamSplit(a: seq<Token>, b: seq<Token>, dc: CTable, ac: CTable, s: seq<bit>, pos: nat)
    requires |dc.ehufco| == |dc.ehufsi| == |ac.ehufco| == |ac.ehufsi| == 256
    ensures InStream(a + b, dc, ac, s, pos) <==>
            InStream(a, dc, ac, s, pos) && InStream(b, dc, ac, s, pos + |TokensBits(a, dc, ac)|)
    ensures |TokensBits(a + b, dc, ac)| == |TokensBits(a, dc, ac)| + |TokensBits(b, dc, ac)|
  {
    hide TokensBits, HaveCodes, Holds;
    TokensAppend(a, b, dc, ac);
    HoldsSplit(s, pos, TokensBits(a, dc, ac), TokensBits(b, dc, ac));
  }

  // ------------------------------------------------------------------- one run

  /** Blocks inside a run: only correction bits. */
  lemma {:induction false} RunParsed(refine: bool, t: Table, us: seq<Unit>, run: nat, se: nat, p1: nat, s: seq<bit>,
                                     pos: nat)
    requires 0 < p1 && se < 64 && WellFormed(t) && Upto(t.bits, 16) <= 256
    requires AllReady(refine, us, se, p1) && Tails(refine, us) && |us| <= run
    requires Holds(s, pos, TailBits(refine, us))
    ensures ParseUnits(refine, t, us, run, se, p1, s, pos)
         == (AllDone(us, p1), run - |us|, pos + |TailBits(refine, us)|)
    decreases |us|
  {
    hide Done, Holds, Prepared, Corrections, Rest, SmallFresh, NoneFresh, Band;
    if us != [] {
      var u, more := us[0], us[1..];
      assert UnitReady(refine, u, se, p1) && NoneFresh(refine, u.c);
      HoldsSplit(s, pos, Corrections(refine, u.c), TailBits(refine, more));
      RestParsed(refine, u.b, u.k, u.c, se, p1, s, pos);
      RunParsed(refine, t, more, run - 1, se, p1, s, pos + |Corrections(refine, u.c)|);
    }
  }

  /** The length of a run from its symbol and extra bits. */
  lemma RunLength(run: nat, s: seq<bit>, pos: nat)
    requires 0 < run && Holds(s, pos, Word(run % Pow2(Levels(run)), Levels(run)))
    ensures Pow2(Levels(run)) + Window(s, pos, Levels(run)) == run
  {
    var n := Levels(run);
    LevelsBound(run);
    var w := Word(run % Pow2(n), n);
    var p: int := Pow2(n);
    ModIs(run, p, 1, run - p);
    WordVal(run % Pow2(n), n);
    HoldsWindow(s, pos, w, n);
    assert w[..n] == w;
  }

  function EobSize(run: nat): (ks: seq<Token>)
    requires 0 < run
  {
    if Levels(run) == 0 then [] else [Extra(run, Levels(run))]
  }

  lemma EobSizeBits(run: nat, dc: CTable, ac: CTable)
    requires |dc.ehufco| == |dc.ehufsi| == |ac.ehufco| == |ac.ehufsi| == 256 && 0 < run
    ensures TokensBits(EobSize(run), dc, ac) == Word(run % Pow2(Levels(run)), Levels(run))
    ensures HaveCodes(EobSize(run), dc, ac)
  {
    hide Levels, Pow2;
    NoToken(dc, ac);
    if Levels(run) != 0 {
      OneToken(Extra(run, Levels(run)), dc, ac);
    }
  }

  /** The first block of a run. */
  lemma EobFound(refine: bool, t: Table, dc: CTable, ac: CTable, u: Unit, run: nat, x: seq<bit>, se: nat, p1: nat,
                 s: seq<bit>, pos: nat)
    requires Tables(t, dc, ac) && WellFormed(t) && Upto(t.bits, 16) <= 256
    requires |dc.ehufco| == |dc.ehufsi| == |ac.ehufco| == |ac.ehufsi| == 256
    requires UnitReady(refine, u, se, p1) && NoneFresh(refine, u.c) && 0 < run <= MAX_RUN
    requires InStream(Eob(run, x), dc, ac, s, pos) && Corrections(refine, u.c) <= x
    ensures |x| <= |TokensBits(Eob(run, x), dc, ac)|
    ensures var at := pos + |TokensBits(Eob(run, x), dc, ac)| - |x|;
      && Holds(s, at, x)
      && BlockBand(refine, t, u.b, u.k, 0, se, p1, s, pos)
         == (UnitDone(u, p1), run - 1, at + |Corrections(refine, u.c)|)
  {
    hide Done, Holds, Prepared, Corrections, Rest, SmallFresh, NoneFresh, TokensBits, HaveCodes, Matching, Levels,
      Decode, Word, Skip, Pow2;
    var n, y := Levels(run), 16 * Levels(run);
    Pow2Small();
    Pow2Add(8, 7);
    LevelsLimit(run, 15);
    var sym, size, cs := [AcSymbol(y)], EobSize(run), Corrections(refine, u.c);
    InStreamSplit(sym, size + BitTokens(x), dc, ac, s, pos);
    OneToken(AcSymbol(y), dc, ac);
    var p := pos + |TokensBits(sym, dc, ac)|;
    InStreamSplit(size, BitTokens(x), dc, ac, s, p);
    EobSizeBits(run, dc, ac);
    BitTokensBits(x, dc, ac);
    SymbolDecoded(t, ac, y, s, pos);
    RunLength(run, s, p);
    assert x == cs + x[|cs|..];
    HoldsSplit(s, p + n, cs, x[|cs|..]);
    RestParsed(refine, u.b, u.k, u.c, se, p1, s, p + n);
    assert y / 16 == n && y % 16 == 0;
  }

  /** A whole run. */
  lemma EobParsed(refine: bool, t: Table, dc: CTable, ac: CTable, us: seq<Unit>, se: nat, p1: nat, s: seq<bit>,
                  pos: nat)
    requires Tables(t, dc, ac) && WellFormed(t) && Upto(t.bits, 16) <= 256
    requires |dc.ehufco| == |dc.ehufsi| == |ac.ehufco| == |ac.ehufsi| == 256
    requires 0 < p1 && se < 64 && AllReady(refine, us, se, p1) && Tails(refine, us) && |us| <= MAX_RUN
    requires InStream(Eob(|us|, TailBits(refine, us)), dc, ac, s, pos)
    ensures ParseUnits(refine, t, us, 0, se, p1, s, pos)
         == (AllDone(us, p1), 0, pos + |TokensBits(Eob(|us|, TailBits(refine, us)), dc, ac)|)
  {
    hide Done, Holds, Prepared, Corrections, SmallFresh, NoneFresh, TokensBits, HaveCodes, Matching, BlockBand,
      InStream, Eob;
    if us == [] {
      NoEob(dc, ac);
    } else {
      var u, more := us[0], us[1..];
      var cs := Corrections(refine, u.c);
      var x := cs + TailBits(refine, more);
      assert UnitReady(refine, u, se, p1) && NoneFresh(refine, u.c);
      assert cs <= x;
      EobFound(refine, t, dc, ac, u, |us|, x, se, p1, s, pos);
      var at := pos + |TokensBits(Eob(|us|, x), dc, ac)| - |x|;
      HoldsSplit(s, at, cs, TailBits(refine, more));
      RunParsed(refine, t, more, |us| - 1, se, p1, s, at + |cs|);
    }
  }

  lemma NoEob(dc: CTable, ac: CTable)
    requires |dc.ehufco| == |dc.ehufsi| == |ac.ehufco| == |ac.ehufsi| == 256
    ensures TokensBits(Eob(0, []), dc, ac) == [] && InStream([], dc, ac, [], 0)
  {
    NoToken(dc, ac);
  }

  // ------------------------------------------------------------- whole segments

  /** Tokens of the bands of a segment, when `p` is pending. */
  function SegmentTokens(refine: bool, p: Pending, bands: seq<seq<int>>): seq<Token>
    decreases |bands|
  {
    if bands == [] then Eob(p.run, p.bits)
    else BandTokens(refine, p, bands[0]) + SegmentTokens(refine, BandPending(refine, p, bands[0]), bands[1..])
  }

  function Bands(us: seq<Unit>): (cs: seq<seq<int>>)
    ensures |cs| == |us| && forall i :: 0 <= i < |us| ==> cs[i] == us[i].c
  {
    if us == [] then [] else [us[0].c] + Bands(us[1..])
  }

  function Unsent(refine: bool, us: seq<Unit>): Pending
  {
    Pending(|us|, TailBits(refine, us))
  }

  /** Decoding `us` at `pos` gives their values, with no run left over. */
  ghost predicate Comes(refine: bool, t: Table, us: seq<Unit>, se: nat, p1: nat, s: seq<bit>, pos: nat, len: nat)
    requires 0 < p1 && se < 64 && WellFormed(t) && Upto(t.bits, 16) <= 256
  {
    ParseUnits(refine, t, us, 0, se, p1, s, pos) == (AllDone(us, p1), 0, pos + len)
  }

  lemma AllDoneAppend(us: seq<Unit>, vs: seq<Unit>, p1: nat)
    ensures AllDone(us + vs, p1) == AllDone(us, p1) + AllDone(vs, p1)
  {
    hide UnitDone;
    var x, y := AllDone(us + vs, p1), AllDone(us, p1) + AllDone(vs, p1);
    assert forall i :: 0 <= i < |x| ==> x[i] == y[i];
  }

  lemma ComesSplit(refine: bool, t: Table, us: seq<Unit>, vs: seq<Unit>, se: nat, p1: nat, s: seq<bit>, pos: nat,
                   m: nat, n: nat)
    requires 0 < p1 && se < 64 && WellFormed(t) && Upto(t.bits, 16) <= 256
    requires Comes(refine, t, us, se, p1, s, pos, m) && Comes(refine, t, vs, se, p1, s, pos + m, n)
    ensures Comes(refine, t, us + vs, se, p1, s, pos, m + n)
  {
    hide ParseUnits;
    ParseSplit(refine, t, us, vs, 0, se, p1, s, pos);
    AllDoneAppend(us, vs, p1);
  }

  /** The unit after its fresh coefficients. */
  function AfterFront(refine: bool, u: Unit, p1: nat): (v: Unit)
    ensures v.k + |v.c| == u.k + |u.c| && NoneFresh(refine, v.c)
    ensures v.c == u.c[FrontLen(refine, u.c)..]
  {
    var n := FrontLen(refine, u.c);
    Unit(if u.k + n <= 64 then Done(u.b, u.k, u.c[..n], p1) else u.b, u.k + n, u.c[n..])
  }

  lemma SmallParts(refine: bool, c: seq<int>, n: nat)
    requires n <= |c| && SmallFresh(refine, c)
    ensures SmallFresh(refine, c[..n]) && SmallFresh(refine, c[n..])
  {
    hide Fresh, Category;
    assert forall i :: 0 <= i < n ==> c[..n][i] == c[i];
    assert forall i :: 0 <= i < |c| - n ==> c[n..][i] == c[n + i];
  }

  /** A band in two parts. */
  lemma SplitBand(refine: bool, b: Zigzag, k: nat, c: seq<int>, n: nat, p1: nat)
    requires n <= |c| && k + |c| <= 64 && Prepared(refine, b, k, c, p1) && SmallFresh(refine, c)
    ensures Prepared(refine, b, k, c[..n], p1) && Prepared(refine, Done(b, k, c[..n], p1), k + n, c[n..], p1)
    ensures Done(Done(b, k, c[..n], p1), k + n, c[n..], p1) == Done(b, k, c, p1)
    ensures SmallFresh(refine, c[..n]) && SmallFresh(refine, c[n..])
  {
    hide *;
    SmallParts(refine, c, n);
    var x, y := c[..n], c[n..];
    assert c == x + y && |x| == n;
    PreparedAppend(refine, b, k, x, y, p1);
    DoneAppend(b, k, x, y, p1);
  }

  lemma StartHalfway(refine: bool, b: Zigzag, k: nat, x: seq<int>, se: nat, p1: nat)
    requires 0 < p1 && se < 64 && k + |x| <= se + 1 && Prepared(refine, b, k, x, p1)
    ensures Halfway(refine, b, k, [], 0, x, se, p1) && [] + Zeros(0) + x == x
  {
    hide Prepared, NoneFresh;
    EmptyRun(refine, b, k, p1);
    ZerosNone();
    assert [] + [] + x == x;
  }

  lemma AfterFrontReady(refine: bool, u: Unit, se: nat, p1: nat)
    requires UnitReady(refine, u, se, p1)
    ensures var v, x := AfterFront(refine, u, p1), u.c[..FrontLen(refine, u.c)];
      && u.k + |u.c| == se + 1 <= 64 && 0 < p1 && (x != [] ==> Fresh(refine, x[|x| - 1]))
      && Halfway(refine, u.b, u.k, [], 0, x, se, p1) && SmallFresh(refine, x)
      && v.b == Done(u.b, u.k, [] + Zeros(0) + x, p1) && v.k == u.k + |x|
      && UnitDone(v, p1) == UnitDone(u, p1) && (v.c != [] ==> UnitReady(refine, v, se, p1))
  {
    hide *;
    UnitMeans(refine, u, se, p1);
    var n, v := FrontLen(refine, u.c), AfterFront(refine, u, p1);
    AfterFrontIs(refine, u, p1);
    SplitBand(refine, u.b, u.k, u.c, n, p1);
    StartHalfway(refine, u.b, u.k, u.c[..n], se, p1);
    UnitMeans(refine, v, se, p1);
  }

  lemma UnitMeans(refine: bool, u: Unit, se: nat, p1: nat)
    ensures UnitReady(refine, u, se, p1) <==>
            && 0 < p1 && se < 64 && u.k + |u.c| == se + 1 && u.c != []
            && Prepared(refine, u.b, u.k, u.c, p1) && SmallFresh(refine, u.c)
    ensures u.k + |u.c| <= 64 ==> UnitDone(u, p1) == Done(u.b, u.k, u.c, p1)
  {
  }

  lemma AfterFrontIs(refine: bool, u: Unit, p1: nat)
    requires u.k + |u.c| <= 64
    ensures var n := FrontLen(refine, u.c);
      AfterFront(refine, u, p1) == Unit(Done(u.b, u.k, u.c[..n], p1), u.k + n, u.c[n..])
  {
  }

  lemma BandEnds(refine: bool, t: Table, b: Zigzag, k: nat, se: nat, p1: nat, s: seq<bit>, pos: nat)
    requires 0 < p1 && se < 64 && WellFormed(t) && Upto(t.bits, 16) <= 256
    ensures BlockBand(refine, t, b, k, 0, se, p1, s, pos) == Band(refine, t, b, k, se, p1, s, pos)
    ensures k > se ==> Band(refine, t, b, k, se, p1, s, pos) == (b, 0, pos)
  {
    hide Decode, Skip, Rest;
  }

  lemma FrontFound(refine: bool, t: Table, dc: CTable, ac: CTable, u: Unit, se: nat, p1: nat, s: seq<bit>, pos: nat)
    requires Tables(t, dc, ac) && WellFormed(t) && Upto(t.bits, 16) <= 256
    requires |dc.ehufco| == |dc.ehufsi| == |ac.ehufco| == |ac.ehufsi| == 256
    requires UnitReady(refine, u, se, p1) && 0 < p1 && se < 64
    requires InStream(FrontTokens(refine, u.c[..FrontLen(refine, u.c)], 0, []), dc, ac, s, pos)
    ensures var v, n := AfterFront(refine, u, p1),
                        |TokensBits(FrontTokens(refine, u.c[..FrontLen(refine, u.c)], 0, []), dc, ac)|;
      && BlockBand(refine, t, u.b, u.k, 0, se, p1, s, pos) == BlockBand(refine, t, v.b, v.k, 0, se, p1, s, pos + n)
      && UnitDone(v, p1) == UnitDone(u, p1) && (v.c != [] ==> UnitReady(refine, v, se, p1))
      && (v.c == [] ==> BlockBand(refine, t, v.b, v.k, 0, se, p1, s, pos + n) == (UnitDone(u, p1), 0, pos + n))
  {
    hide Done, Holds, Prepared, Corrections, Fresh, NoneFresh, TokensBits, HaveCodes, Zeros, ZerosIn, Band, BlockBand,
      FrontTokens, Tables, Halfway, SmallFresh, UnitReady, UnitDone, AfterFront;
    AfterFrontReady(refine, u, se, p1);
    var v, x := AfterFront(refine, u, p1), u.c[..FrontLen(refine, u.c)];
    var n := |TokensBits(FrontTokens(refine, x, 0, []), dc, ac)|;
    EmptyRun(refine, u.b, 0, p1);
    FrontParsed(refine, t, dc, ac, u.b, u.k, [], 0, x, se, p1, s, pos);
    BandEnds(refine, t, u.b, u.k, se, p1, s, pos);
    BandEnds(refine, t, v.b, v.k, se, p1, s, pos + n);
    if v.c == [] {
      DoneNothing(v, p1);
    }
  }

  lemma DoneNothing(v: Unit, p1: nat)
    requires v.c == []
    ensures UnitDone(v, p1) == v.b
  {
    if v.k <= 64 {
      EmptyRun(true, v.b, v.k, p1);
    }
  }

  function FlushTokens(p: Pending): seq<Token>
  {
    if Full(p) then Eob(p.run, p.bits) else []
  }

  lemma SegmentStep(refine: bool, p: Pending, bands: seq<seq<int>>)
    requires bands != []
    ensures var q := BandTail(refine, p, bands[0]);
      SegmentTokens(refine, p, bands)
      == BandFront(refine, p, bands[0])
         + (FlushTokens(q) + SegmentTokens(refine, if Full(q) then NONE else q, bands[1..]))
  {
    hide BandFront, BandTail, Eob, Full;
    var q := BandTail(refine, p, bands[0]);
    Regroup(BandFront(refine, p, bands[0]), FlushTokens(q),
            SegmentTokens(refine, if Full(q) then NONE else q, bands[1..]));
  }

  lemma UnsentSnoc(refine: bool, us: seq<Unit>, u: Unit)
    requires u.c != []
    ensures AddTail(refine, Unsent(refine, us), u.c) == Unsent(refine, us + [u])
  {
    TailBitsSnoc(refine, us, u);
  }

  /** The end of the band of the last of `us` has just been counted. */
  lemma {:induction false} TailAdded(refine: bool, t: Table, dc: CTable, ac: CTable, us: seq<Unit>, vs: seq<Unit>,
                                     se: nat, p1: nat, s: seq<bit>, pos: nat)
    requires Tables(t, dc, ac) && WellFormed(t) && Upto(t.bits, 16) <= 256 && 0 < p1 && se < 64
    requires |dc.ehufco| == |dc.ehufsi| == |ac.ehufco| == |ac.ehufsi| == 256
    requires AllReady(refine, us, se, p1) && Tails(refine, us) && |us| <= MAX_RUN && AllReady(refine, vs, se, p1)
    requires var q := Unsent(refine, us);
      InStream(FlushTokens(q) + SegmentTokens(refine, if Full(q) then NONE else q, Bands(vs)), dc, ac, s, pos)
    ensures var q := Unsent(refine, us);
      var ks := FlushTokens(q) + SegmentTokens(refine, if Full(q) then NONE else q, Bands(vs));
      Comes(refine, t, us + vs, se, p1, s, pos, |TokensBits(ks, dc, ac)|)
    decreases |vs|, 1
  {
    hide TokensBits, InStream, Tables, AllReady, Tails, Eob, SegmentTokens, ParseUnits, Comes, TailBits;
    var q := Unsent(refine, us);
    if Full(q) {
      var eob, rest := Eob(q.run, q.bits), SegmentTokens(refine, NONE, Bands(vs));
      InStreamSplit(eob, rest, dc, ac, s, pos);
      RunComes(refine, t, dc, ac, us, se, p1, s, pos);
      NoneUnsent(refine, se, p1);
      UnitsParsed(refine, t, dc, ac, [], vs, se, p1, s, pos + |TokensBits(eob, dc, ac)|);
      assert [] + vs == vs;
      ComesSplit(refine, t, us, vs, se, p1, s, pos, |TokensBits(eob, dc, ac)|, |TokensBits(rest, dc, ac)|);
    } else {
      var rest := SegmentTokens(refine, q, Bands(vs));
      assert [] + rest == rest;
      UnitsParsed(refine, t, dc, ac, us, vs, se, p1, s, pos);
    }
  }

  lemma NoneUnsent(refine: bool, se: nat, p1: nat)
    ensures Unsent(refine, []) == NONE && AllReady(refine, [], se, p1) && Tails(refine, [])
  {
  }

  lemma RunComes(refine: bool, t: Table, dc: CTable, ac: CTable, us: seq<Unit>, se: nat, p1: nat, s: seq<bit>, pos: nat)
    requires Tables(t, dc, ac) && WellFormed(t) && Upto(t.bits, 16) <= 256 && 0 < p1 && se < 64
    requires |dc.ehufco| == |dc.ehufsi| == |ac.ehufco| == |ac.ehufsi| == 256
    requires AllReady(refine, us, se, p1) && Tails(refine, us) && |us| <= MAX_RUN
    requires var q := Unsent(refine, us); InStream(Eob(q.run, q.bits), dc, ac, s, pos)
    ensures var q := Unsent(refine, us);
      Comes(refine, t, us, se, p1, s, pos, |TokensBits(Eob(q.run, q.bits), dc, ac)|)
  {
    hide TokensBits, InStream, Tables, AllReady, Tails, Eob, ParseUnits, TailBits;
    EobParsed(refine, t, dc, ac, us, se, p1, s, pos);
  }

  lemma ReadyParts(refine: bool, us: seq<Unit>, se: nat, p1: nat)
    requires AllReady(refine, us, se, p1) && us != []
    ensures UnitReady(refine, us[0], se, p1) && us[0].c != [] && AllReady(refine, us[1..], se, p1)
    ensures Bands(us)[0] == us[0].c && Bands(us)[1..] == Bands(us[1..])
  {
    hide Prepared, SmallFresh;
  }

  lemma ReadySnoc(refine: bool, us: seq<Unit>, u: Unit, se: nat, p1: nat)
    requires AllReady(refine, us, se, p1) && Tails(refine, us) && UnitReady(refine, u, se, p1)
    requires NoneFresh(refine, u.c)
    ensures AllReady(refine, us + [u], se, p1) && Tails(refine, us + [u])
  {
    hide UnitReady, NoneFresh;
  }

  /** The blocks of a segment come back: those whose end of band has not been sent yet,
      `us`, and the ones after them. */
  lemma {:induction false} UnitsParsed(refine: bool, t: Table, dc: CTable, ac: CTable, us: seq<Unit>, vs: seq<Unit>,
                                       se: nat, p1: nat, s: seq<bit>, pos: nat)
    requires Tables(t, dc, ac) && WellFormed(t) && Upto(t.bits, 16) <= 256 && 0 < p1 && se < 64
    requires |dc.ehufco| == |dc.ehufsi| == |ac.ehufco| == |ac.ehufsi| == 256
    requires AllReady(refine, us, se, p1) && Tails(refine, us) && |us| < MAX_RUN && AllReady(refine, vs, se, p1)
    requires InStream(SegmentTokens(refine, Unsent(refine, us), Bands(vs)), dc, ac, s, pos)
    ensures Comes(refine, t, us + vs, se, p1, s, pos,
                  |TokensBits(SegmentTokens(refine, Unsent(refine, us), Bands(vs)), dc, ac)|)
    decreases |vs|, 0
  {
    hide *;
    var p := Unsent(refine, us);
    if vs == [] {
      SegmentEnd(refine, p);
      RunComes(refine, t, dc, ac, us, se, p1, s, pos);
      assert us + [] == us;
    } else {
      var v, more := vs[0], vs[1..];
      ReadyParts(refine, vs, se, p1);
      SegmentStep(refine, p, Bands(vs));
      var front, q := BandFront(refine, p, v.c), BandTail(refine, p, v.c);
      var rest := FlushTokens(q) + SegmentTokens(refine, if Full(q) then NONE else q, Bands(more));
      InStreamSplit(front, rest, dc, ac, s, pos);
      if FrontLen(refine, v.c) == 0 {
        TailOnly(refine, p, v.c);
        UnsentSnoc(refine, us, v);
        ReadySnoc(refine, us, v, se, p1);
        NoToken(dc, ac);
        assert us + vs == us + [v] + more;
        TailAdded(refine, t, dc, ac, us + [v], more, se, p1, s, pos);
      } else {
        FreshBlock(refine, t, dc, ac, us, v, more, se, p1, s, pos, front, rest);
        assert vs == [v] + more;
      }
    }
  }

  lemma SegmentEnd(refine: bool, p: Pending)
    ensures SegmentTokens(refine, p, Bands([])) == Eob(p.run, p.bits)
  {
  }

  /** A block with fresh coefficients ends the run of the blocks `us`. */
  lemma {:induction false} FreshBlock(refine: bool, t: Table, dc: CTable, ac: CTable, us: seq<Unit>, v: Unit,
                                      more: seq<Unit>, se: nat, p1: nat, s: seq<bit>, pos: nat, front: seq<Token>,
                                      rest: seq<Token>)
    requires Tables(t, dc, ac) && WellFormed(t) && Upto(t.bits, 16) <= 256 && 0 < p1 && se < 64
    requires |dc.ehufco| == |dc.ehufsi| == |ac.ehufco| == |ac.ehufsi| == 256
    requires AllReady(refine, us, se, p1) && Tails(refine, us) && |us| < MAX_RUN
    requires UnitReady(refine, v, se, p1) && AllReady(refine, more, se, p1) && FrontLen(refine, v.c) != 0
    requires var p := Unsent(refine, us);
      var q := BandTail(refine, p, v.c);
      && front == BandFront(refine, p, v.c)
      && rest == FlushTokens(q) + SegmentTokens(refine, if Full(q) then NONE else q, Bands(more))
    requires InStream(front, dc, ac, s, pos) && InStream(rest, dc, ac, s, pos + |TokensBits(front, dc, ac)|)
    ensures Comes(refine, t, us + ([v] + more), se, p1, s, pos,
                  |TokensBits(front, dc, ac)| + |TokensBits(rest, dc, ac)|)
    decreases |more|, 3
  {
    hide *;
    var p := Unsent(refine, us);
    FrontParts(refine, p, v.c);
    var eob, ks := Eob(p.run, p.bits), FrontTokens(refine, v.c[..FrontLen(refine, v.c)], 0, []);
    InStreamSplit(eob, ks, dc, ac, s, pos);
    RunComes(refine, t, dc, ac, us, se, p1, s, pos);
    var m, n := |TokensBits(eob, dc, ac)|, |TokensBits(ks, dc, ac)|;
    FreshUnit(refine, t, dc, ac, v, more, se, p1, s, pos + m);
    ComesSplit(refine, t, us, [v] + more, se, p1, s, pos, m, n + |TokensBits(rest, dc, ac)|);
  }

  lemma TailOnly(refine: bool, p: Pending, c: seq<int>)
    requires FrontLen(refine, c) == 0
    ensures BandFront(refine, p, c) == [] && BandTail(refine, p, c) == AddTail(refine, p, c) && NoneFresh(refine, c)
  {
    assert c[0..] == c;
  }

  lemma FrontParts(refine: bool, p: Pending, c: seq<int>)
    requires FrontLen(refine, c) != 0
    ensures BandFront(refine, p, c) == Eob(p.run, p.bits) + FrontTokens(refine, c[..FrontLen(refine, c)], 0, [])
    ensures BandTail(refine, p, c) == AddTail(refine, NONE, c[FrontLen(refine, c)..])
  {
  }

  /** A block with fresh coefficients, and the blocks after it. */
  lemma {:induction false} FreshUnit(refine: bool, t: Table, dc: CTable, ac: CTable, v: Unit, more: seq<Unit>, se: nat,
                                     p1: nat, s: seq<bit>, pos: nat)
    requires Tables(t, dc, ac) && WellFormed(t) && Upto(t.bits, 16) <= 256 && 0 < p1 && se < 64
    requires |dc.ehufco| == |dc.ehufsi| == |ac.ehufco| == |ac.ehufsi| == 256
    requires UnitReady(refine, v, se, p1) && AllReady(refine, more, se, p1)
    requires var n := FrontLen(refine, v.c);
      var q := AddTail(refine, NONE, v.c[n..]);
      var ks := FrontTokens(refine, v.c[..n], 0, []);
      && InStream(ks, dc, ac, s, pos)
      && InStream(FlushTokens(q) + SegmentTokens(refine, if Full(q) then NONE else q, Bands(more)), dc, ac, s,
                  pos + |TokensBits(ks, dc, ac)|)
    ensures var n := FrontLen(refine, v.c);
      var q := AddTail(refine, NONE, v.c[n..]);
      var ks := FrontTokens(refine, v.c[..n], 0, []);
      Comes(refine, t, [v] + more, se, p1, s, pos,
            |TokensBits(ks, dc, ac)|
            + |TokensBits(FlushTokens(q) + SegmentTokens(refine, if Full(q) then NONE else q, Bands(more)), dc, ac)|)
    decreases |more|, 2
  {
    hide TokensBits, InStream, Tables, AllReady, Tails, Eob, ParseUnits, Comes, TailBits, UnitReady,
      FrontTokens, SegmentTokens, UnitDone, BlockBand;
    var n := FrontLen(refine, v.c);
    var q := AddTail(refine, NONE, v.c[n..]);
    var ks := FrontTokens(refine, v.c[..n], 0, []);
    var rest := FlushTokens(q) + SegmentTokens(refine, if Full(q) then NONE else q, Bands(more));
    var len, at := |TokensBits(rest, dc, ac)|, pos + |TokensBits(ks, dc, ac)|;
    FrontFound(refine, t, dc, ac, v, se, p1, s, pos);
    var w := AfterFront(refine, v, p1);
    NoneUnsent(refine, se, p1);
    if w.c == [] {
      assert [] + SegmentTokens(refine, q, Bands(more)) == SegmentTokens(refine, q, Bands(more));
      UnitsParsed(refine, t, dc, ac, [], more, se, p1, s, at);
      assert [] + more == more;
      OneDone(refine, t, v, more, se, p1, s, pos, at, len);
    } else {
      UnsentSnoc(refine, [], w);
      ReadySnoc(refine, [], w, se, p1);
      assert [] + [w] == [w];
      TailAdded(refine, t, dc, ac, [w], more, se, p1, s, at);
      SameUnit(refine, t, v, w, more, se, p1, s, pos, at, len);
    }
  }

  lemma OneDone(refine: bool, t: Table, v: Unit, more: seq<Unit>, se: nat, p1: nat, s: seq<bit>, pos: nat, at: nat,
                len: nat)
    requires WellFormed(t) && Upto(t.bits, 16) <= 256 && 0 < p1 && se < 64 && pos <= at
    requires BlockBand(refine, t, v.b, v.k, 0, se, p1, s, pos) == (UnitDone(v, p1), 0, at)
    requires Comes(refine, t, more, se, p1, s, at, len)
    ensures Comes(refine, t, [v] + more, se, p1, s, pos, at - pos + len)
  {
    hide BlockBand, UnitDone;
    assert ([v] + more)[1..] == more;
  }

  lemma SameUnit(refine: bool, t: Table, v: Unit, w: Unit, more: seq<Unit>, se: nat, p1: nat, s: seq<bit>, pos: nat,
                 at: nat, len: nat)
    requires WellFormed(t) && Upto(t.bits, 16) <= 256 && 0 < p1 && se < 64 && pos <= at
    requires BlockBand(refine, t, v.b, v.k, 0, se, p1, s, pos) == BlockBand(refine, t, w.b, w.k, 0, se, p1, s, at)
    requires UnitDone(v, p1) == UnitDone(w, p1) && Comes(refine, t, [w] + more, se, p1, s, at, len)
    ensures Comes(refine, t, [v] + more, se, p1, s, pos, at - pos + len)
  {
    hide BlockBand, UnitDone;
    assert ([v] + more)[1..] == more && ([w] + more)[1..] == more;
  }
}
