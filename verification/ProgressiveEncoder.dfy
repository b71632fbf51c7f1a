/** Encoding the blocks of progressive AC scans (jchuff.c): end-of-band runs and the
    buffer of correction bits. */
module ProgressiveEncoding {
  import opened Powers
  import opened BitStreams
  import opened Coefficients
  import opened HuffmanBlock
  import opened HuffmanScan
  import opened HuffmanSink
  import opened ProgressiveTokens
  import B = ProgressiveBand
  import M = HuffmanMcuEncoding

  // -------------------------------------------------------- what is left of a band

  lemma {:induction false} FrontLenIs(refine: bool, c: seq<int>, n: nat)
    requires n <= |c| && (n > 0 ==> Fresh(refine, c[n - 1])) && forall j :: n <= j < |c| ==> !Fresh(refine, c[j])
    ensures FrontLen(refine, c) == n
    decreases |c|
  {
    hide Fresh;
    if n < |c| {
      var d := c[..|c| - 1];
      assert forall j :: n <= j < |d| ==> d[j] == c[j];
      FrontLenIs(refine, d, n);
    }
  }

  lemma FrontLenNext(refine: bool, c: seq<int>)
    requires c != []
    ensures var n := FrontLen(refine, c[1..]);
      FrontLen(refine, c) == if n > 0 then n + 1 else if Fresh(refine, c[0]) then 1 else 0
  {
    hide Fresh;
    var d := c[1..];
    var n := FrontLen(refine, d);
    assert forall j :: 0 <= j < |d| ==> d[j] == c[j + 1];
    var m := if n > 0 then n + 1 else if Fresh(refine, c[0]) then 1 else 0;
    forall j | m <= j < |c|
      ensures !Fresh(refine, c[j])
    {
      if j > 0 {
        assert !Fresh(refine, d[j - 1]);
      }
    }
    FrontLenIs(refine, c, m);
  }

  /** Tokens still to be sent for `c` after `r` zeros with correction bits `br`, when
      `p` is pending. */
  function Left(refine: bool, p: Pending, c: seq<int>, r: nat, br: seq<bit>): seq<Token>
  {
    var n := FrontLen(refine, c);
    if n == 0 then [] else Eob(p.run, p.bits) + FrontTokens(refine, c[..n], r, br)
  }

  /** And what is pending after that. */
  function LeftTail(refine: bool, p: Pending, c: seq<int>, r: nat, br: seq<bit>): Pending
  {
    var n := FrontLen(refine, c);
    if n != 0 then AddTail(refine, NONE, c[n..])
    else if c == [] && r == 0 && br == [] then p
    else Pending(p.run + 1, p.bits + (br + Corrections(refine, c)))
  }

  lemma LeftIs(refine: bool, p: Pending, c: seq<int>, r: nat, br: seq<bit>)
    ensures var n := FrontLen(refine, c);
      if n == 0 then
        && Left(refine, p, c, r, br) == []
        && LeftTail(refine, p, c, r, br) == if c == [] && r == 0 && br == [] then p
                                            else Pending(p.run + 1, p.bits + (br + Corrections(refine, c)))
      else
        && Left(refine, p, c, r, br) == Eob(p.run, p.bits) + FrontTokens(refine, c[..n], r, br)
        && LeftTail(refine, p, c, r, br) == AddTail(refine, NONE, c[n..])
  {
  }

  lemma LeftStart(refine: bool, p: Pending, c: seq<int>)
    ensures Left(refine, p, c, 0, []) == BandFront(refine, p, c)
    ensures LeftTail(refine, p, c, 0, []) == BandTail(refine, p, c)
  {
    assert [] + Corrections(refine, c) == Corrections(refine, c);
    assert c[0..] == c;
  }

  /** The first of `n` coefficients, and the others. */
  lemma Slices(c: seq<int>, n: nat)
    requires 0 < n <= |c|
    ensures c[..n] != [] && c[..n][0] == c[0]
    ensures c[..n][1..] == c[1..][..n - 1] && c[n..] == c[1..][n - 1..]
  {
  }

  lemma CorrectionsStep(refine: bool, c: seq<int>)
    requires c != []
    ensures Corrections(refine, c) == Correction(refine, c[0]) + Corrections(refine, c[1..])
    ensures Old(refine, c[0]) ==> Correction(refine, c[0]) == [Abs(c[0]) % 2]
    ensures c[0] == 0 ==> Corrections(refine, c) == Corrections(refine, c[1..])
  {
  }

  lemma Kinds(refine: bool, x: int)
    ensures x == 0 ==> !Old(refine, x) && !Fresh(refine, x)
    ensures x != 0 ==> (Fresh(refine, x) <==> !Old(refine, x))
  {
  }

  lemma LeftZero(refine: bool, p: Pending, c: seq<int>, r: nat, br: seq<bit>)
    requires c != [] && c[0] == 0
    ensures Left(refine, p, c, r, br) == Left(refine, p, c[1..], r + 1, br)
    ensures LeftTail(refine, p, c, r, br) == LeftTail(refine, p, c[1..], r + 1, br)
  {
    hide *;
    FrontLenNext(refine, c);
    Kinds(refine, c[0]);
    LeftIs(refine, p, c, r, br);
    LeftIs(refine, p, c[1..], r + 1, br);
    CorrectionsStep(refine, c);
    var n := FrontLen(refine, c);
    if n > 0 {
      Slices(c, n);
      B.FrontStep(refine, c[..n], r, br);
    }
  }

  /** A coefficient that only needs a correction bit. */
  lemma LeftOld(refine: bool, p: Pending, c: seq<int>, r: nat, br: seq<bit>)
    requires c != [] && Old(refine, c[0]) && (FrontLen(refine, c) == 0 || r <= 15)
    ensures Left(refine, p, c, r, br) == Left(refine, p, c[1..], r, br + [Abs(c[0]) % 2])
    ensures LeftTail(refine, p, c, r, br) == LeftTail(refine, p, c[1..], r, br + [Abs(c[0]) % 2])
  {
    hide *;
    FrontLenNext(refine, c);
    Kinds(refine, c[0]);
    LeftIs(refine, p, c, r, br);
    LeftIs(refine, p, c[1..], r, br + [Abs(c[0]) % 2]);
    CorrectionsStep(refine, c);
    var n, x := FrontLen(refine, c), [Abs(c[0]) % 2];
    Regroup(br, x, Corrections(refine, c[1..]));
    if n > 0 {
      Slices(c, n);
      B.FrontStep(refine, c[..n], r, br);
      ShortRun(r, br);
      var rest := FrontTokens(refine, c[1..][..n - 1], r, br + x);
      assert [] + rest == rest;
    }
  }

  lemma ShortRun(r: nat, br: seq<bit>)
    requires r <= 15
    ensures ZrlTokens(r, br) == [] && LeftOver(r, br) == br && r % 16 == r
  {
  }

  lemma LongRun(r: nat, br: seq<bit>)
    requires r > 15
    ensures LeftOver(r, br) == []
  {
  }

  /** Runs of sixteen zeros come before a coefficient that is not zero. */
  lemma LeftRuns(refine: bool, p: Pending, c: seq<int>, r: nat, br: seq<bit>)
    requires c != [] && c[0] != 0 && FrontLen(refine, c) > 0 && r > 15
    ensures Left(refine, p, c, r, br)
         == Eob(p.run, p.bits) + ZrlTokens(r, br) + Left(refine, NONE, c, r % 16, [])
    ensures LeftTail(refine, p, c, r, br) == LeftTail(refine, NONE, c, r % 16, [])
  {
    hide *;
    var n := FrontLen(refine, c);
    var d := c[..n];
    Slices(c, n);
    LeftIs(refine, p, c, r, br);
    LeftIs(refine, NONE, c, r % 16, []);
    NoPending();
    var x := FrontTokens(refine, d, r % 16, []);
    assert [] + x == x;
    NoRuns(refine, d, r, br);
    Regroup(Eob(p.run, p.bits), ZrlTokens(r, br), x);
  }

  lemma NoPending()
    ensures Eob(NONE.run, NONE.bits) == []
  {
  }

  lemma NoRuns(refine: bool, d: seq<int>, r: nat, br: seq<bit>)
    requires d != [] && d[0] != 0 && r > 15
    ensures FrontTokens(refine, d, r, br) == ZrlTokens(r, br) + FrontTokens(refine, d, r % 16, [])
  {
    hide *;
    Kinds(refine, d[0]);
    LongRun(r, br);
    ShortRun(r % 16, []);
    B.FrontStep(refine, d, r, br);
    B.FrontStep(refine, d, r % 16, []);
    var x := FrontTokens(refine, d, r % 16, []);
    if Old(refine, d[0]) {
      var rest := FrontTokens(refine, d[1..], r % 16, [] + [Abs(d[0]) % 2]);
      assert [] + rest == rest;
    } else {
      var rest := (Coef(r % 16, d[0]) + BitTokens([])) + FrontTokens(refine, d[1..], 0, []);
      assert [] + rest == rest;
    }
  }

  lemma LeftFresh(refine: bool, p: Pending, c: seq<int>, r: nat, br: seq<bit>)
    requires c != [] && Fresh(refine, c[0]) && r <= 15
    ensures FrontLen(refine, c) > 0
    ensures Left(refine, p, c, r, br)
         == (Eob(p.run, p.bits) + (Coef(r, c[0]) + BitTokens(br))) + Left(refine, NONE, c[1..], 0, [])
    ensures LeftTail(refine, p, c, r, br) == LeftTail(refine, NONE, c[1..], 0, [])
  {
    hide *;
    FrontLenNext(refine, c);
    var n := FrontLen(refine, c);
    Slices(c, n);
    LeftIs(refine, p, c, r, br);
    LeftIs(refine, NONE, c[1..], 0, []);
    NoPending();
    ShortRun(r, br);
    B.FrontStep(refine, c[..n], r, br);
    var e, k, rest := Eob(p.run, p.bits), Coef(r, c[0]) + BitTokens(br), FrontTokens(refine, c[1..][..n - 1], 0, []);
    assert [] + (k + rest) == k + rest && [] + rest == rest;
    Regroup(e, k, rest);
    if n == 1 {
      assert c[1..][..0] == [] && c[1..][0..] == c[1..];
      B.FrontStep(refine, [], 0, []);
      TailOfFresh(refine, c[1..]);
      assert (e + k) + [] == e + k;
    }
  }

  lemma TailOfFresh(refine: bool, d: seq<int>)
    requires FrontLen(refine, d) == 0
    ensures AddTail(refine, NONE, d) == LeftTail(refine, NONE, d, 0, [])
  {
    assert [] + Corrections(refine, d) == Corrections(refine, d);
  }

  lemma LeftEnd(refine: bool, p: Pending, r: nat, br: seq<bit>)
    ensures Left(refine, p, [], r, br) == []
    ensures LeftTail(refine, p, [], r, br)
         == if r == 0 && br == [] then p else Pending(p.run + 1, p.bits + br)
  {
    assert br + [] == br;
  }

  // -------------------------------------------------------------------- encoder

  /** Length of a nonzero number's binary representation, less one. */
  method CountLevels(v: nat) returns (n: nat)
    requires v > 0
    ensures n == Levels(v)
  {
    var temp := v;
    n := 0;
    while temp / 2 != 0
      invariant temp > 0 && n + Levels(temp) == Levels(v)
      decreases temp
    {
      temp := temp / 2;
      n := n + 1;
    }
  }

  lemma EobIs(run: nat, x: seq<bit>)
    ensures run == 0 ==> Eob(run, x) == []
    ensures run > 0 && Levels(run) == 0 ==> Eob(run, x) == [AcSymbol(0)] + ([] + BitTokens(x))
    ensures run > 0 && Levels(run) > 0 ==>
              Eob(run, x) == [AcSymbol(16 * Levels(run))] + ([Extra(run, Levels(run))] + BitTokens(x))
  {
  }

  lemma RunFits(run: nat)
    requires 0 < run <= MAX_RUN
    ensures Levels(run) <= 14
  {
    Pow2Small();
    Pow2Add(8, 7);
    LevelsLimit(run, 15);
  }

  /** The encoder's state of a progressive AC scan, which has one component. */
  class AcEncoder {
    const sink: SymbolSink
    const bitBuffer: array<bit>
    var eobrun: nat      // blocks in the pending end-of-band run
    var be: nat          // correction bits of those blocks in the buffer

    ghost predicate Parameters()
    {
      && bitBuffer.Length == MAX_CORR_BITS && 0 < |sink.dcTbl|
      && (forall i :: 0 <= i < |sink.dcCounts| ==> (sink.dcCounts[i] as object) != bitBuffer)
      && forall i :: 0 <= i < |sink.acCounts| ==> (sink.acCounts[i] as object) != bitBuffer
    }

    ghost predicate Own()
      reads `eobrun, `be
    {
      Parameters() && be <= MAX_CORR_BITS && eobrun <= MAX_RUN && (eobrun == 0 ==> be == 0)
    }

    lemma OwnMeans()
      requires Own()
      ensures Parameters()
      ensures bitBuffer.Length == MAX_CORR_BITS && 0 < |sink.dcTbl| && be <= MAX_CORR_BITS && eobrun <= MAX_RUN
      ensures eobrun == 0 ==> be == 0
      ensures forall i :: 0 <= i < |sink.dcCounts| ==> (sink.dcCounts[i] as object) != bitBuffer
      ensures forall i :: 0 <= i < |sink.acCounts| ==> (sink.acCounts[i] as object) != bitBuffer
    {
    }

    /** The pending correction bits are the first ones of the buffer. */
    ghost function Pend(): Pending
      requires Own()
      reads this, bitBuffer
    {
      Pending(eobrun, bitBuffer[..be])
    }

    lemma PendIs()
      requires Own()
      ensures be <= bitBuffer.Length && Pend() == Pending(eobrun, bitBuffer[..be])
    {
    }

    lemma OwnAgain()
      requires Parameters() && be <= MAX_CORR_BITS && eobrun <= MAX_RUN && (eobrun == 0 ==> be == 0)
      ensures Own()
    {
    }

    constructor (sink: SymbolSink)
      requires 0 < |sink.dcTbl|
      ensures Own() && Pend() == NONE && this.sink == sink && fresh(bitBuffer)
    {
      this.sink, eobrun, be := sink, 0, 0;
      bitBuffer := new bit[MAX_CORR_BITS](i => 0);
    }

    /** emit_eobrun: the pending run and its correction bits. */
    method EmitEobrun() returns (ok: bool)
      requires sink.Valid() && Own()
      modifies `eobrun, `be, sink, sink.w, sink.dcCounts, sink.acCounts
      ensures Own() && bitBuffer[..] == old(bitBuffer[..])
      ensures ok <==> sink.Takes(0, Eob(old(eobrun), old(Pend()).bits))
      ensures ok ==> && sink.Took(old(sink.Now()), 0, Eob(old(eobrun), old(Pend()).bits))
                     && eobrun == be == 0
    {
      hide *;
      OwnMeans();
      PendIs();
      EobIs(eobrun, bitBuffer[..be]);
      ghost var was, bits := sink.Now(), bitBuffer[..be];
      ok := true;
      if eobrun == 0 {
        sink.TookNone(0);
        sink.TakesNone(0);
        return;
      }
      var nbits := CountLevels(eobrun);
      RunFits(eobrun);
      var run := eobrun;
      ghost var sym, size := [AcSymbol(16 * nbits)], if nbits == 0 then [] else [Extra(run, nbits)];
      sink.TakesSplit(0, sym, size + BitTokens(bits));
      sink.TakesSplit(0, size, BitTokens(bits));
      SymbolIs(false, 16 * nbits);
      ok := sink.EmitSymbol(false, 0, 16 * nbits);
      if !ok {
        return;
      }
      sink.TookMeans(was, 0, sym);
      ghost var mid := sink.Now();
      if nbits != 0 {
        sink.EmitBits(0, run, nbits);
      } else {
        sink.TookNone(0);
        sink.TakesNone(0);
      }
      sink.TookMore(was, mid, 0, sym, size);
      sink.TookMeans(was, 0, sym + size);
      mid := sink.Now();
      eobrun := 0;
      assert bitBuffer[0..0 + be] == bits;
      sink.EmitBuffered(0, bitBuffer, 0, be);
      sink.TookMore(was, mid, 0, sym + size, BitTokens(bits));
      Regroup(sym, size, BitTokens(bits));
      be := 0;
      OwnAgain();
    }

    /** Runs of sixteen zeros, the first with the `n` correction bits behind the pending
        ones: `left` zeros remain. */
    method EmitZrls(r: nat, n: nat) returns (ok: bool, left: nat)
      requires sink.Valid() && Own() && be + n <= MAX_CORR_BITS && r > 15 && bitBuffer.Length == MAX_CORR_BITS
      modifies `eobrun, `be, sink, sink.w, sink.dcCounts, sink.acCounts
      ensures Own() && bitBuffer[..] == old(bitBuffer[..])
      ensures var ks := Eob(old(eobrun), old(Pend()).bits) + ZrlTokens(r, old(bitBuffer[be..be + n]));
        && (ok <==> sink.Takes(0, ks)) && (ok ==> sink.Took(old(sink.Now()), 0, ks))
      ensures ok ==> eobrun == be == 0 && left == r % 16
    {
      hide *;
      OwnMeans();
      PendIs();
      ghost var was, all := sink.Now(), Eob(eobrun, bitBuffer[..be]) + ZrlTokens(r, bitBuffer[be..be + n]);
      ghost var done: seq<Token> := [];
      sink.Begin(0);
      assert [] + all == all;
      var start: nat, m: nat := be, n;
      left := r;
      while left > 15
        invariant Own() && sink.Valid() && bitBuffer[..] == old(bitBuffer[..])
        invariant start + m <= bitBuffer.Length && start == be && left % 16 == r % 16
        invariant left < r ==> eobrun == be == 0 && m == 0
        invariant done + (Eob(eobrun, bitBuffer[..be]) + ZrlTokens(left, bitBuffer[start..start + m])) == all
        invariant sink.Took(was, 0, done) && sink.Takes(0, done) && Extends(sink.gather, was, sink.Now(), 0, done)
      {
        PendIs();
        ok, done := EmitZrl(left, start, m, was, done, all);
        if !ok {
          return;
        }
        left := left - 16;
        start, m := 0, 0;
      }
      LastRun(left, bitBuffer[..be], bitBuffer[start..start + m]);
      assert done + ([] + []) == done;
      ok := true;
    }

    /** One of them. */
    method EmitZrl(left: nat, start: nat, m: nat, ghost was: Mark, ghost done: seq<Token>, ghost all: seq<Token>)
      returns (ok: bool, ghost after: seq<Token>)
      requires sink.Valid() && Own() && bitBuffer.Length == MAX_CORR_BITS && start + m <= MAX_CORR_BITS && start == be
      requires left > 15
      requires done + (Eob(eobrun, Pend().bits) + ZrlTokens(left, bitBuffer[start..start + m])) == all
      requires sink.Took(was, 0, done) && sink.Takes(0, done) && Extends(sink.gather, was, sink.Now(), 0, done)
      modifies `eobrun, `be, sink, sink.w, sink.dcCounts, sink.acCounts
      ensures Own() && bitBuffer[..] == old(bitBuffer[..]) && (!ok ==> !sink.Takes(0, all))
      ensures ok ==> && eobrun == be == 0 && after + (Eob(0, []) + ZrlTokens(left - 16, [])) == all
                     && sink.Took(was, 0, after) && sink.Takes(0, after) && sink.Valid()
                     && Extends(sink.gather, was, sink.Now(), 0, after)
    {
      hide *;
      OwnMeans();
      PendIs();
      ghost var br := bitBuffer[start..start + m];
      ghost var eob, zrl, bits, rest := Eob(eobrun, bitBuffer[..be]), [AcSymbol(0xF0)], BitTokens(br),
                                        ZrlTokens(left - 16, []);
      ZrlIs(left, br);
      Grouping(done, eob, zrl, bits, rest);
      after := done;
      ghost var mid := sink.Now();
      ok := EmitEobrun();
      if !ok {
        sink.Refused(0, all, done, eob, zrl + (bits + rest));
        return;
      }
      sink.Step(was, mid, 0, done, eob);
      mid := sink.Now();
      OwnMeans();
      SymbolIs(false, 0xF0);
      ok := sink.EmitSymbol(false, 0, 0xF0);
      if !ok {
        sink.Refused(0, all, done + eob, zrl, bits + rest);
        return;
      }
      sink.Step(was, mid, 0, done + eob, zrl);
      mid := sink.Now();
      sink.EmitBuffered(0, bitBuffer, start, m);
      sink.Step(was, mid, 0, done + eob + zrl, bits);
      after := done + eob + zrl + bits;
    }

    /** The symbol of a new coefficient, its bits, and the `n` correction bits behind the
        pending ones. */
    method EmitCoef(r: nat, x: int, nbits: nat, n: nat) returns (ok: bool)
      requires sink.Valid() && Own() && be + n <= MAX_CORR_BITS && bitBuffer.Length == MAX_CORR_BITS
      requires r < 16 && 0 < nbits == Category(x) <= 15
      modifies `eobrun, `be, sink, sink.w, sink.dcCounts, sink.acCounts
      ensures Own() && bitBuffer[..] == old(bitBuffer[..])
      ensures var ks := Eob(old(eobrun), old(Pend()).bits) + (Coef(r, x) + BitTokens(old(bitBuffer[be..be + n])));
        && (ok <==> sink.Takes(0, ks)) && (ok ==> sink.Took(old(sink.Now()), 0, ks))
      ensures ok ==> eobrun == be == 0
    {
      hide *;
      OwnMeans();
      PendIs();
      ghost var was := sink.Now();
      ghost var eob, coef, bits := Eob(eobrun, bitBuffer[..be]), Coef(r, x), BitTokens(bitBuffer[be..be + n]);
      Regroup(eob, coef, bits);
      assert [] + eob == eob && [] + (eob + (coef + bits)) == eob + (coef + bits);
      sink.Begin(0);
      var start := be;
      ok := EmitEobrun();
      OwnMeans();
      if !ok {
        sink.Refused(0, eob + (coef + bits), [], eob, coef + bits);
        return;
      }
      sink.Step(was, was, 0, [], eob);
      ghost var mid := sink.Now();
      ok := sink.EmitCoef(0, r, x, nbits);
      if !ok {
        sink.Refused(0, eob + (coef + bits), eob, coef, bits);
        return;
      }
      sink.Step(was, mid, 0, eob, coef);
      mid := sink.Now();
      sink.EmitBuffered(0, bitBuffer, start, n);
      sink.Step(was, mid, 0, eob + coef, bits);
    }

    /** The state in the middle of a band: `done` has been sent, `c` with `r` zeros and
        the correction bits `br` before it is still to come. */
    ghost predicate Midway(refine: bool, was: Mark, front: seq<Token>, tail: Pending, done: seq<Token>, c: seq<int>,
                           r: nat, br: seq<bit>)
      reads this, bitBuffer, sink, sink.w, sink.dcCounts, sink.acCounts
    {
      && Own() && sink.Valid() && Within(Pend()) && done + Left(refine, Pend(), c, r, br) == front
      && LeftTail(refine, Pend(), c, r, br) == tail
      && sink.Took(was, 0, done) && sink.Takes(0, done) && Extends(sink.gather, was, sink.Now(), 0, done)
    }

    lemma MidwayMeans(refine: bool, was: Mark, front: seq<Token>, tail: Pending, done: seq<Token>, c: seq<int>, r: nat,
                      br: seq<bit>)
      requires Midway(refine, was, front, tail, done, c, r, br)
      ensures Own() && sink.Valid() && Within(Pend()) && done + Left(refine, Pend(), c, r, br) == front
      ensures LeftTail(refine, Pend(), c, r, br) == tail
      ensures sink.Took(was, 0, done) && sink.Takes(0, done) && Extends(sink.gather, was, sink.Now(), 0, done)
    {
    }

    lemma MidwayIs(refine: bool, was: Mark, front: seq<Token>, tail: Pending, done: seq<Token>, c: seq<int>, r: nat,
                   br: seq<bit>)
      requires Own() && sink.Valid() && Within(Pend()) && done + Left(refine, Pend(), c, r, br) == front
      requires LeftTail(refine, Pend(), c, r, br) == tail
      requires sink.Took(was, 0, done) && sink.Takes(0, done) && Extends(sink.gather, was, sink.Now(), 0, done)
      ensures Midway(refine, was, front, tail, done, c, r, br)
    {
    }

    lemma MidwayStart(refine: bool, c: seq<int>)
      requires Own() && sink.Valid() && Within(Pend())
      ensures Midway(refine, sink.Now(), BandFront(refine, Pend(), c), BandTail(refine, Pend(), c), [], c, 0, [])
    {
      hide *;
      LeftStart(refine, Pend(), c);
      sink.Begin(0);
      assert [] + Left(refine, Pend(), c, 0, []) == Left(refine, Pend(), c, 0, []);
      MidwayIs(refine, sink.Now(), BandFront(refine, Pend(), c), BandTail(refine, Pend(), c), [], c, 0, []);
    }

    lemma MidwayZero(refine: bool, was: Mark, front: seq<Token>, tail: Pending, done: seq<Token>, c: seq<int>, r: nat,
                     br: seq<bit>)
      requires Midway(refine, was, front, tail, done, c, r, br) && c != [] && c[0] == 0
      ensures Midway(refine, was, front, tail, done, c[1..], r + 1, br)
    {
      hide *;
      MidwayMeans(refine, was, front, tail, done, c, r, br);
      LeftZero(refine, Pend(), c, r, br);
      MidwayIs(refine, was, front, tail, done, c[1..], r + 1, br);
    }

    lemma MidwayOld(refine: bool, was: Mark, front: seq<Token>, tail: Pending, done: seq<Token>, c: seq<int>, r: nat,
                    br: seq<bit>)
      requires Midway(refine, was, front, tail, done, c, r, br) && c != [] && Old(refine, c[0])
      requires FrontLen(refine, c) == 0 || r <= 15
      ensures Midway(refine, was, front, tail, done, c[1..], r, br + [Abs(c[0]) % 2])
    {
      hide *;
      MidwayMeans(refine, was, front, tail, done, c, r, br);
      LeftOld(refine, Pend(), c, r, br);
      MidwayIs(refine, was, front, tail, done, c[1..], r, br + [Abs(c[0]) % 2]);
    }

    /** Runs of sixteen zeros in the middle of a band. */
    method PassRuns(refine: bool, r: nat, n: nat, ghost c: seq<int>, ghost was: Mark, ghost front: seq<Token>,
                    ghost tail: Pending, ghost done: seq<Token>) returns (ok: bool, left: nat, ghost after: seq<Token>)
      requires Own() && be + n <= MAX_CORR_BITS && bitBuffer.Length == MAX_CORR_BITS && r > 15
      requires c != [] && c[0] != 0 && FrontLen(refine, c) > 0
      requires Midway(refine, was, front, tail, done, c, r, bitBuffer[be..be + n])
      modifies `eobrun, `be, sink, sink.w, sink.dcCounts, sink.acCounts
      ensures Own() && bitBuffer[..] == old(bitBuffer[..]) && (!ok ==> !sink.Takes(0, front))
      ensures ok ==> eobrun == be == 0 && left == r % 16 && Midway(refine, was, front, tail, after, c, left, [])
    {
      hide *;
      ghost var br, p := bitBuffer[be..be + n], Pend();
      MidwayMeans(refine, was, front, tail, done, c, r, br);
      LeftRuns(refine, p, c, r, br);
      ghost var x, rest := Eob(p.run, p.bits) + ZrlTokens(r, br), Left(refine, NONE, c, r % 16, []);
      Regroup(done, x, rest);
      PendIs();
      ghost var mid := sink.Now();
      ok, left := EmitZrls(r, n);
      after := done + x;
      if !ok {
        sink.Refused(0, front, done, x, rest);
        return;
      }
      sink.Step(was, mid, 0, done, x);
      EmptyPend();
      MidwayIs(refine, was, front, tail, after, c, left, []);
    }

    lemma EmptyPend()
      requires Own() && eobrun == be == 0
      ensures Pend() == NONE && Within(Pend())
    {
    }

    /** A new coefficient in the middle of a band. */
    method PassFresh(refine: bool, r: nat, x: int, nbits: nat, n: nat, ghost c: seq<int>, ghost was: Mark,
                     ghost front: seq<Token>, ghost tail: Pending, ghost done: seq<Token>)
      returns (ok: bool, ghost after: seq<Token>)
      requires Own() && be + n <= MAX_CORR_BITS && bitBuffer.Length == MAX_CORR_BITS && r <= 15
      requires c != [] && c[0] == x && Fresh(refine, x) && 0 < nbits == Category(x) <= 15
      requires Midway(refine, was, front, tail, done, c, r, bitBuffer[be..be + n])
      modifies `eobrun, `be, sink, sink.w, sink.dcCounts, sink.acCounts
      ensures Own() && bitBuffer[..] == old(bitBuffer[..]) && (!ok ==> !sink.Takes(0, front))
      ensures ok ==> eobrun == be == 0 && Midway(refine, was, front, tail, after, c[1..], 0, [])
    {
      hide *;
      ghost var br, p := bitBuffer[be..be + n], Pend();
      MidwayMeans(refine, was, front, tail, done, c, r, br);
      LeftFresh(refine, p, c, r, br);
      ghost var y, rest := Eob(p.run, p.bits) + (Coef(r, x) + BitTokens(br)), Left(refine, NONE, c[1..], 0, []);
      Regroup(done, y, rest);
      PendIs();
      ghost var mid := sink.Now();
      ok := EmitCoef(r, x, nbits, n);
      after := done + y;
      if !ok {
        sink.Refused(0, front, done, y, rest);
        return;
      }
      sink.Step(was, mid, 0, done, y);
      EmptyPend();
      MidwayIs(refine, was, front, tail, after, c[1..], 0, []);
    }

    /** The end of a band: count it, and send the run when the counter or the buffer of
        correction bits might overflow. */
    method EndBand(ghost refine: bool, r: nat, n: nat, ghost p: Pending, ghost c: seq<int>, ghost was: Mark,
                   ghost done: seq<Token>) returns (ok: bool)
      requires Own() && be + n <= MAX_CORR_BITS && bitBuffer.Length == MAX_CORR_BITS && Within(p) && |c| <= 63
      requires Midway(refine, was, BandFront(refine, p, c), BandTail(refine, p, c), done, [], r, bitBuffer[be..be + n])
      modifies `eobrun, `be, sink, sink.w, sink.dcCounts, sink.acCounts
      ensures Own() && bitBuffer[..] == old(bitBuffer[..])
      ensures ok <==> sink.Takes(0, BandTokens(refine, p, c))
      ensures ok ==> sink.Took(was, 0, BandTokens(refine, p, c)) && Pend() == BandPending(refine, p, c)
    {
      hide *;
      ghost var br, front, q := bitBuffer[be..be + n], BandFront(refine, p, c), BandTail(refine, p, c);
      MidwayMeans(refine, was, front, q, done, [], r, br);
      LeftEnd(refine, Pend(), r, br);
      assert done + [] == done;
      BandEnd(refine, p, c);
      OwnMeans();
      PendIs();
      ok := true;
      ghost var mid := sink.Now();
      if r > 0 || n > 0 {
        assert bitBuffer[..be] + br == bitBuffer[..be + n];
        eobrun, be := eobrun + 1, be + n;
        OwnAgain();
        PendIs();
        if eobrun == 0x7FFF || be > 1000 - 64 + 1 {
          ok := EmitEobrun();
          sink.TakesSplit(0, front, Eob(q.run, q.bits));
          if ok {
            sink.Step(was, mid, 0, front, Eob(q.run, q.bits));
            EmptyPend();
          }
        }
      }
    }

    /** A coefficient that is nonzero after the point transform; refused when too large. */
    method FirstNonzero(r: nat, temp: nat, y: int, ghost c: seq<int>, ghost was: Mark, ghost front: seq<Token>,
                        ghost tail: Pending, ghost done: seq<Token>) returns (ok: bool, ghost after: seq<Token>)
      requires Own() && be == 0 && bitBuffer.Length == MAX_CORR_BITS
      requires c != [] && c[0] == y && 0 < temp && (y == temp || y == -(temp as int))
      requires Midway(false, was, front, tail, done, c, r, [])
      modifies `eobrun, `be, sink, sink.w, sink.dcCounts, sink.acCounts
      ensures Own() && bitBuffer[..] == old(bitBuffer[..])
      ensures !ok ==> Category(y) > 10 || !sink.Takes(0, front)
      ensures ok ==> be == 0 && Category(y) <= 10 && Midway(false, was, front, tail, after, c[1..], 0, [])
    {
      hide *;
      FirstKind(temp, y);
      NotLast(false, c);
      var left := r;
      after := done;
      assert bitBuffer[be..be + 0] == [];
      if r > 15 {
        ok, left, after := PassRuns(false, r, 0, c, was, front, tail, done);
        if !ok {
          return;
        }
      }
      assert bitBuffer[be..be + 0] == [];
      var nbits := M.NumberOfBits(temp);
      if nbits > 10 {
        ok := false;
        return;
      }
      OwnMeans();
      ok, after := PassFresh(false, left, y, nbits, 0, c, was, front, tail, after);
    }

    /** encode_mcu_AC_first, for its block. */
    method EncodeFirst(order: seq<nat>, block: Zigzag, ss: nat, se: nat, al: nat) returns (ok: bool)
      requires sink.Valid() && Own() && Within(Pend()) && be == 0 && IsOrder(order) && 0 < ss <= se < 64
      modifies `eobrun, `be, sink, sink.w, sink.dcCounts, sink.acCounts
      ensures Own() && bitBuffer[..] == old(bitBuffer[..])
      ensures var c := Points(InZigzag(order, block)[ss..se + 1], al); var p := old(Pend());
        && (ok <==> SmallCoefs(c) && sink.Takes(0, BandTokens(false, p, c)))
        && (ok ==> sink.Took(old(sink.Now()), 0, BandTokens(false, p, c)) && Pend() == BandPending(false, p, c))
      ensures ok ==> be == 0
    {
      hide *;
      OwnMeans();
      M.OrderMeans(order, block);
      ghost var p, was := Pend(), sink.Now();
      ghost var c := Points(InZigzag(order, block)[ss..se + 1], al);
      ghost var front, tail := BandFront(false, p, c), BandTail(false, p, c);
      ghost var done: seq<Token> := [];
      MidwayStart(false, c);
      BandEnd(false, p, c);
      sink.TakesSplit(0, front, if Full(tail) then Eob(tail.run, tail.bits) else []);
      SmallNone();
      PendIs();
      assert c[0..] == c && c[..0] == [] && bitBuffer[0..0] == [] && bitBuffer[..0] == [];
      var r, k := 0, ss;
      while k <= se
        invariant ss <= k <= se + 1 && Own() && be == 0 && bitBuffer[..] == old(bitBuffer[..])
        invariant SmallCoefs(c[..k - ss]) && Midway(false, was, front, tail, done, c[k - ss..], r, [])
      {
        var x := block[order[k]];
        ghost var rest := c[k - ss..];
        assert rest != [] && rest[0] == Point(x, al) && rest[1..] == c[k + 1 - ss..];
        PointIs(x, al);
        var temp := Shift(Abs(x), al);
        var y: int := if x < 0 then -(temp as int) else temp;
        SmallNext(c, k - ss);
        if temp == 0 {
          MidwayZero(false, was, front, tail, done, rest, r, []);
          CategoryZero(y);
          r := r + 1;
        } else {
          ok, done := FirstNonzero(r, temp, y, rest, was, front, tail, done);
          if !ok {
            return;
          }
          r := 0;
        }
        k := k + 1;
      }
      assert c[se + 1 - ss..] == [] && c[..se + 1 - ss] == c && bitBuffer[be..be + 0] == [];
      OwnMeans();
      ok := EndBand(false, r, 0, p, c, was, done);
      PendingFirst(p, c);
      PendIs();
    }

    /** Buffer one more correction bit. */
    method BufferBit(n: nat, b: bit, r: nat, ghost x: int, ghost c: seq<int>, ghost was: Mark, ghost front: seq<Token>,
                     ghost tail: Pending, ghost done: seq<Token>)
      requires Own() && be + n < MAX_CORR_BITS && bitBuffer.Length == MAX_CORR_BITS
      requires c != [] && c[0] == x && Old(true, x) && b == Abs(x) % 2 && (FrontLen(true, c) == 0 || r <= 15)
      requires Midway(true, was, front, tail, done, c, r, bitBuffer[be..be + n])
      modifies bitBuffer
      ensures Own() && Midway(true, was, front, tail, done, c[1..], r, bitBuffer[be..be + n + 1])
    {
      hide *;
      ghost var br, pending := bitBuffer[be..be + n], bitBuffer[..be];
      OwnMeans();
      PendIs();
      MidwayOld(true, was, front, tail, done, c, r, br);
      MidwayMeans(true, was, front, tail, done, c[1..], r, br + [b]);
      bitBuffer[be + n] := b;
      assert bitBuffer[..be] == pending && bitBuffer[be..be + n + 1] == br + [b];
      PendIs();
      MidwayIs(true, was, front, tail, done, c[1..], r, br + [b]);
    }

    lemma WithinBound()
      requires Own() && Within(Pend())
      ensures be <= 937
    {
    }

    /** One coefficient that is not zero after the point transform. */
    method RefineNonzero(r: nat, temp: nat, y: int, near: bool, n: nat, ghost c: seq<int>, ghost was: Mark,
                         ghost front: seq<Token>, ghost tail: Pending, ghost done: seq<Token>)
      returns (ok: bool, left: nat, m: nat, ghost after: seq<Token>)
      requires Own() && n <= 62 && bitBuffer.Length == MAX_CORR_BITS == 1000
      requires c != [] && c[0] == y && 0 < temp && (y == temp || y == -(temp as int))
      requires near <==> FrontLen(true, c) > 0
      requires be + n <= MAX_CORR_BITS && Midway(true, was, front, tail, done, c, r, bitBuffer[be..be + n])
      modifies `eobrun, `be, sink, sink.w, sink.dcCounts, sink.acCounts, bitBuffer
      ensures Own() && (!ok ==> !sink.Takes(0, front))
      ensures ok ==> && m <= n + 1 && be + m <= MAX_CORR_BITS
                     && Midway(true, was, front, tail, after, c[1..], left, bitBuffer[be..be + m])
    {
      hide *;
      RefineKind(temp, y, c);
      MidwayMeans(true, was, front, tail, done, c, r, bitBuffer[be..be + n]);
      WithinBound();
      ok, left, m, after := true, r, n, done;
      if r > 15 && near {
        ok, left, after := PassRuns(true, r, n, c, was, front, tail, done);
        if !ok {
          return;
        }
        m := 0;
        assert bitBuffer[be..be + m] == [];
      }
      if temp > 1 {
        BufferBit(m, temp % 2, left, y, c, was, front, tail, after);
        m := m + 1;
        return;
      }
      ok, after := PassFresh(true, left, y, 1, m, c, was, front, tail, after);
      if !ok {
        return;
      }
      left, m := 0, 0;
      assert bitBuffer[be..be + m] == [];
    }

    /** One coefficient after the point transform. */
    method RefineCoef(r: nat, temp: nat, y: int, near: bool, n: nat, ghost c: seq<int>, ghost was: Mark,
                      ghost front: seq<Token>, ghost tail: Pending, ghost done: seq<Token>)
      returns (ok: bool, left: nat, m: nat, ghost after: seq<Token>)
      requires Own() && n <= 62 && be + n <= bitBuffer.Length == MAX_CORR_BITS == 1000
      requires c != [] && c[0] == y && (y == temp || y == -(temp as int)) && (near <==> FrontLen(true, c) > 0)
      requires Midway(true, was, front, tail, done, c, r, bitBuffer[be..be + n])
      modifies `eobrun, `be, sink, sink.w, sink.dcCounts, sink.acCounts, bitBuffer
      ensures Own() && (!ok ==> !sink.Takes(0, front))
      ensures ok ==> && m <= n + 1 && be + m <= bitBuffer.Length
                     && Midway(true, was, front, tail, after, c[1..], left, bitBuffer[be..be + m])
    {
      hide *;
      OwnMeans();
      if temp == 0 {
        MidwayZero(true, was, front, tail, done, c, r, bitBuffer[be..be + n]);
        ok, left, m, after := true, r + 1, n, done;
      } else {
        ok, left, m, after := RefineNonzero(r, temp, y, near, n, c, was, front, tail, done);
      }
    }

    /** encode_mcu_AC_refine, for its block. */
    method EncodeRefine(order: seq<nat>, block: Zigzag, ss: nat, se: nat, al: nat) returns (ok: bool)
      requires sink.Valid() && Own() && Within(Pend()) && IsOrder(order) && 0 < ss <= se < 64
      modifies `eobrun, `be, sink, sink.w, sink.dcCounts, sink.acCounts, bitBuffer
      ensures Own()
      ensures var c := Points(InZigzag(order, block)[ss..se + 1], al); var p := old(Pend());
        && (ok <==> sink.Takes(0, BandTokens(true, p, c)))
        && (ok ==> sink.Took(old(sink.Now()), 0, BandTokens(true, p, c)) && Pend() == BandPending(true, p, c))
    {
      hide *;
      OwnMeans();
      M.OrderMeans(order, block);
      ghost var p, was := Pend(), sink.Now();
      ghost var c := Points(InZigzag(order, block)[ss..se + 1], al);
      ghost var front, tail := BandFront(true, p, c), BandTail(true, p, c);
      ghost var done: seq<Token> := [];
      var absvalues, eob := PrePass(order, block, ss, se, al);
      MidwayStart(true, c);
      BandEnd(true, p, c);
      sink.TakesSplit(0, front, if Full(tail) then Eob(tail.run, tail.bits) else []);
      PendIs();
      assert c[0..] == c && bitBuffer[be..be + 0] == [];
      var r: nat, n: nat, k := 0, 0, ss;
      while k <= se
        invariant ss <= k <= se + 1 && Own() && n <= k - ss && be + n <= bitBuffer.Length
        invariant Midway(true, was, front, tail, done, c[k - ss..], r, bitBuffer[be..be + n])
      {
        ghost var rest := c[k - ss..];
        assert rest != [] && rest[0] == c[k - ss] == Point(block[order[k]], al) && rest[1..] == c[k + 1 - ss..];
        PointIs(block[order[k]], al);
        FrontLenRest(true, c, k - ss);
        var temp := absvalues[k];
        ok, r, n, done := RefineCoef(r, temp, if block[order[k]] < 0 then -(temp as int) else temp, k <= eob, n,
                                     rest, was, front, tail, done);
        if !ok {
          return;
        }
        k := k + 1;
      }
      assert c[se + 1 - ss..] == [];
      OwnMeans();
      ok := EndBand(true, r, n, p, c, was, done);
    }
  }

  lemma RefineKind(temp: nat, y: int, c: seq<int>)
    requires 0 < temp && (y == temp || y == -(temp as int)) && c != [] && c[0] == y
    ensures temp > 1 ==> Old(true, y) && temp % 2 == Abs(y) % 2
    ensures temp == 1 ==> Fresh(true, y) && Category(y) == 1 && FrontLen(true, c) > 0
  {
    if temp == 1 {
      NotLast(true, c);
    }
  }

  lemma {:induction false} FrontLenRest(refine: bool, c: seq<int>, i: nat)
    requires i <= |c|
    ensures FrontLen(refine, c[i..]) == if i < FrontLen(refine, c) then FrontLen(refine, c) - i else 0
  {
    hide Fresh;
    var n, d := FrontLen(refine, c), c[i..];
    var m := if i < n then n - i else 0;
    assert forall j :: 0 <= j < |d| ==> d[j] == c[i + j];
    FrontLenIs(refine, d, m);
  }

  /** The transformed absolute values, and the last position with a new coefficient. */
  method PrePass(order: seq<nat>, block: Zigzag, ss: nat, se: nat, al: nat) returns (absvalues: seq<nat>, eob: nat)
    requires IsOrder(order) && 0 < ss <= se < 64
    ensures |absvalues| == 64 && |order| == 64
    ensures forall k :: ss <= k <= se ==> order[k] < 64 && absvalues[k] == Shift(Abs(block[order[k]]), al)
    ensures var n := FrontLen(true, Points(InZigzag(order, block)[ss..se + 1], al));
      eob == if n == 0 then 0 else ss + n - 1
  {
    hide *;
    M.OrderMeans(order, block);
    ghost var x := InZigzag(order, block)[ss..se + 1];
    assert forall i :: 0 <= i < |x| ==> x[i] == block[order[ss + i]];
    var values := new nat[64](i => 0);
    eob := 0;
    var k := ss;
    while k <= se
      invariant ss <= k <= se + 1
      invariant forall j :: ss <= j < k ==> values[j] == Shift(Abs(block[order[j]]), al)
      invariant eob == 0 || (ss <= eob < k && values[eob] == 1)
      invariant forall j :: ss <= j < k && eob < j ==> values[j] != 1
    {
      var temp := Shift(Abs(block[order[k]]), al);
      values[k] := temp;
      if temp == 1 {
        eob := k;
      }
      k := k + 1;
    }
    absvalues := values[..];
    LastFresh(x, al, absvalues[ss..se + 1], if eob == 0 then 0 else eob + 1 - ss);
  }

  lemma LastFresh(x: seq<int>, al: nat, values: seq<nat>, n: nat)
    requires |values| == |x| && n <= |x| && forall i :: 0 <= i < |x| ==> values[i] == Shift(Abs(x[i]), al)
    requires (n > 0 ==> values[n - 1] == 1) && forall i :: n <= i < |x| ==> values[i] != 1
    ensures FrontLen(true, Points(x, al)) == n
  {
    hide Shift;
    var c := Points(x, al);
    forall i | 0 <= i < |c|
      ensures Abs(c[i]) == values[i]
    {
      PointIs(x[i], al);
    }
    FreshIsOne(c);
    FrontLenIs(true, c, n);
  }

  lemma FreshIsOne(c: seq<int>)
    ensures forall i :: 0 <= i < |c| ==> (Fresh(true, c[i]) <==> Abs(c[i]) == 1)
  {
  }

  lemma SmallNone()
    ensures SmallCoefs([])
  {
  }

  lemma SmallNext(c: seq<int>, i: nat)
    requires i < |c| && SmallCoefs(c[..i])
    ensures SmallCoefs(c[..i + 1]) <==> Category(c[i]) <= 10
    ensures SmallCoefs(c) ==> Category(c[i]) <= 10
    ensures c[..|c|] == c
  {
    hide Category;
    assert c[..i + 1] == c[..i] + [c[i]];
    if SmallCoefs(c[..i + 1]) {
      assert c[..i + 1][i] == c[i];
    }
  }

  lemma PointIs(x: int, al: nat)
    ensures Point(x, al) == if x < 0 then -(Shift(Abs(x), al) as int) else Shift(Abs(x), al)
  {
  }

  lemma FirstKind(temp: nat, y: int)
    requires 0 < temp && (y == temp || y == -(temp as int))
    ensures Fresh(false, y) && Category(y) == Category(temp) && 0 < Category(y)
  {
  }

  lemma NotLast(refine: bool, c: seq<int>)
    requires c != [] && Fresh(refine, c[0])
    ensures FrontLen(refine, c) > 0
  {
    FrontLenNext(refine, c);
  }

  /** A first scan has no correction bits. */
  lemma PendingFirst(p: Pending, c: seq<int>)
    requires p.bits == []
    ensures BandPending(false, p, c).bits == []
  {
    var n := FrontLen(false, c);
    NoneLeft(c[n..]);
  }

  lemma {:induction false} NoneLeft(c: seq<int>)
    ensures Corrections(false, c) == []
  {
    if c != [] {
      NoneLeft(c[1..]);
    }
  }

  lemma BandEnd(refine: bool, p: Pending, c: seq<int>)
    requires Within(p) && |c| <= 63
    ensures var q := BandTail(refine, p, c);
      && BandTokens(refine, p, c) == BandFront(refine, p, c) + (if Full(q) then Eob(q.run, q.bits) else [])
      && BandPending(refine, p, c) == (if Full(q) then NONE else q)
      && q.run <= MAX_RUN == 0x7FFF && |q.bits| <= MAX_CORR_BITS == 1000
      && (Full(q) <==> q.run == 0x7FFF || |q.bits| > 1000 - 64 + 1) && (Within(q) ==> !Full(q))
  {
    PendingBounds(refine, p, c);
  }

  lemma ZrlIs(r: nat, br: seq<bit>)
    requires r > 15
    ensures ZrlTokens(r, br) == [AcSymbol(0xF0)] + (BitTokens(br) + ZrlTokens(r - 16, []))
    ensures Eob(0, []) == []
  {
    if r - 16 > 15 {
      var z := Zrls(r - 32);
      assert BitTokens([]) + z == z;
    }
  }

  lemma LastRun(r: nat, x: seq<bit>, br: seq<bit>)
    requires r <= 15
    ensures ZrlTokens(r, br) == [] && Eob(0, x) == []
  {
  }

  lemma Grouping(done: seq<Token>, a: seq<Token>, b: seq<Token>, c: seq<Token>, d: seq<Token>)
    ensures var all := done + (a + (b + (c + d)));
      && all == (done + a) + (b + (c + d)) && all == (done + a + b) + (c + d)
      && all == (done + a + b + c) + ([] + d)
  {
  }
}
