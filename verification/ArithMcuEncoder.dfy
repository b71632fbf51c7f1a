/** The MCU encoding routines of the arithmetic coder (jcarith.c), on top of the
    register-level encoder. */
module ArithMcuEncoding {
  import opened Powers
  import opened Coefficients
  import opened IntervalCoder
  import opened ArithBinarization
  import opened ArithScan
  import opened ArithSegment
  import opened ArithEncoding

  /** Exactly the decisions `ds` have been coded since the old state. */
  twostate predicate Coded(e: ArithEncoder, ds: seq<Decision>)
    reads e
  {
    && e.Valid() && e.history == old(e.history) + ds
    && e.before == old(e.before) && e.initial == old(e.initial)
  }

  /** The bits of `v` below its leading bit, the `n`-th, high bit first. */
  method EncodeBits(e: ArithEncoder, bin: Bin, ghost n: nat, leading: nat, v: nat)
    requires e.Valid() && Legal(bin) && leading == Pow2(n)
    modifies e
    ensures Coded(e, LowBits(bin, n, v))
  {
    hide ArithEncoder.Valid, LegalRun, Step, Run;
    var m := leading;
    ghost var j: nat := n;
    while m / 2 != 0
      invariant e.Valid() && m == Pow2(j) && j <= n
      invariant e.before == old(e.before) && e.initial == old(e.initial)
      invariant old(e.history) + LowBits(bin, n, v) == e.history + LowBits(bin, j, v)
      decreases m
    {
      m := m / 2;
      j := j - 1;
      ShiftIsDivision(v, j);
      e.Encode(bin, if v / m % 2 == 1 then 1 else 0);
    }
  }

  lemma CategoryStep(area: Area, base: nat, j: nat, v: nat)
    requires v > 0
    ensures v / 2 == 0 ==> Chain(area, base, j, v) == [Decision(Stat(area, base + j), 0)] && Levels(v) == 0
    ensures v / 2 != 0 ==>
              && Chain(area, base, j, v)
                 == [Decision(Stat(area, base + j), 1)] + Chain(area, base, j + 1, v / 2)
              && Levels(v) == 1 + Levels(v / 2) && Pow2(j + 1) == Pow2(j) * 2
  {
  }

  lemma CategoryStart(i: nat, v: nat)
    requires i <= 1 && Shift(v, i) > 0 && v < 0x1_0000
    ensures Shift(v, i) == (if i == 0 then v else v / 2) && Pow2(i) == if i == 0 then 1 else 2
    ensures v > 0 && Levels(v) == i + Levels(Shift(v, i)) && Levels(v) <= 15
  {
    LevelsHalved(i, v);
    LevelsLimit(v, 16);
    Pow2Small();
  }

  /** Magnitude category of `v`, whose first `i` halvings are coded; `m` is the
      value of its leading bit. */
  method EncodeCategory(e: ArithEncoder, area: Area, base: nat, i: nat, v: nat)
    returns (st: nat, m: nat)
    requires e.Valid() && i <= 1 && Shift(v, i) > 0 && v < 0x1_0000
    requires TailFits(area, base, 15, DC_STAT_BINS, AC_STAT_BINS)
    modifies e
    ensures Coded(e, Chain(area, base, i, Shift(v, i)))
    ensures v > 0 && st == base + Levels(v) && m == Pow2(Levels(v)) && Levels(v) <= 15
  {
    hide ArithEncoder.Valid, LegalRun, Step, Run, Chain, Levels, Pow2, Shift;
    CategoryStart(i, v);
    ghost var all := Chain(area, base, i, Shift(v, i));
    var v2 := if i == 0 then v else v / 2;
    st, m := base + i, if i == 0 then 1 else 2;
    ghost var j: nat := i;
    while v2 / 2 != 0
      invariant e.Valid() && v2 > 0 && st == base + j && j + Levels(v2) == Levels(v) <= 15
      invariant e.before == old(e.before) && e.initial == old(e.initial)
      invariant m == Pow2(j)
      invariant old(e.history) + all == e.history + Chain(area, base, j, v2)
      decreases v2
    {
      CategoryStep(area, base, j, v2);
      Regroup(e.history, [Decision(Stat(area, st), 1)], Chain(area, base, j + 1, v2 / 2));
      e.Encode(Stat(area, st), 1);
      m := m * 2;
      st := st + 1;
      j := j + 1;
      v2 := v2 / 2;
    }
    CategoryStep(area, base, j, v2);
    e.Encode(Stat(area, st), 0);
  }

  /** Category and bits. */
  method EncodeTail(e: ArithEncoder, area: Area, base: nat, i: nat, v: nat) returns (m: nat)
    requires e.Valid() && i <= 1 && Shift(v, i) > 0 && v < 0x1_0000
    requires TailFits(area, base, 15, DC_STAT_BINS, AC_STAT_BINS)
    modifies e
    ensures Coded(e, Tail(area, base, i, v))
    ensures v > 0 && m == Pow2(Levels(v))
  {
    hide ArithEncoder.Valid, Chain, LowBits, Levels, Pow2;
    var st;
    st, m := EncodeCategory(e, area, base, i, v);
    EncodeBits(e, Stat(area, st + 14), Levels(v), m, v);
  }

  // ------------------------------------------------------------------- DC

  /** Conditioning category of a difference, from the leading bit `m` of its
      magnitude less one. */
  method Condition(m: nat, sign: nat, lower: nat, upper: nat) returns (ctx: nat)
    requires sign < 2
    ensures ctx == if m < Pow2(lower) / 2 then 0 else
                   if m > Pow2(upper) / 2 then 12 + 4 * sign else 4 + 4 * sign
  {
    ctx := if sign == 0 then 4 else 8;
    if m < Pow2(lower) / 2 {
      ctx := 0;
    } else if m > Pow2(upper) / 2 {
      ctx := ctx + 8;
    }
  }

  method EncodeDcMagnitude(e: ArithEncoder, tbl: nat, st: nat, v: nat) returns (m: nat)
    requires e.Valid() && tbl < NUM_ARITH_TBLS && st < 20 && v < 0x1_0000
    modifies e
    ensures Coded(e, DcMagnitude(tbl, st, v))
    ensures m == if v == 0 then 0 else Pow2(Levels(v))
  {
    hide ArithEncoder.Valid, Tail, Levels, Pow2;
    if v != 0 {
      e.Encode(Stat(DcArea(tbl), st), 1);
      m := EncodeTail(e, DcArea(tbl), 20, 0, v);
    } else {
      e.Encode(Stat(DcArea(tbl), st), 0);
      m := 0;
    }
  }

  method EncodeDcDiff(e: ArithEncoder, tbl: nat, ctx: nat, diff: int, lower: nat, upper: nat)
    returns (next: nat)
    requires e.Valid() && tbl < NUM_ARITH_TBLS && ctx <= 16 && Abs(diff) <= 0x1_0000
    modifies e
    ensures Coded(e, DcDiff(tbl, ctx, diff)) && next == DcContext(diff, lower, upper)
  {
    hide ArithEncoder.Valid, Tail, Levels, Pow2, DcMagnitude;
    if diff == 0 {
      e.Encode(Stat(DcArea(tbl), ctx), 0);
      return 0;
    }
    e.Encode(Stat(DcArea(tbl), ctx), 1);
    var st, v, sign := ctx + 2, diff, 0;
    if v < 0 {
      st, v, sign := ctx + 3, -v, 1;
    }
    e.Encode(Stat(DcArea(tbl), ctx + 1), sign);
    ghost var mag := DcMagnitude(tbl, st, v - 1);
    Regroup(old(e.history), [Decision(Stat(DcArea(tbl), ctx), 1)],
            [Decision(Stat(DcArea(tbl), ctx + 1), sign)] + mag);
    Regroup(old(e.history) + [Decision(Stat(DcArea(tbl), ctx), 1)],
            [Decision(Stat(DcArea(tbl), ctx + 1), sign)], mag);
    var m := EncodeDcMagnitude(e, tbl, st, v - 1);
    next := Condition(m, sign, lower, upper);
  }

  // ------------------------------------------------------------------- AC

  /** Figures F.7 to F.9 for a coefficient at zigzag position `pos`. */
  method EncodeAcValue(e: ArithEncoder, tbl: nat, kx: nat, pos: nat, value: int)
    requires e.Valid() && tbl < NUM_ARITH_TBLS && 0 < pos < 64 && 0 < Abs(value) <= 0x8000
    modifies e
    ensures Coded(e, AcValue(tbl, kx, pos, value))
  {
    hide ArithEncoder.Valid, AcMagnitude, Run, Step;
    e.Encode(Fixed, SignBit(value));
    EncodeAcMagnitude(e, tbl, kx, pos, Abs(value) - 1);
  }

  method EncodeAcMagnitude(e: ArithEncoder, tbl: nat, kx: nat, pos: nat, v: nat)
    requires e.Valid() && tbl < NUM_ARITH_TBLS && 0 < pos < 64 && v < 0x8000
    modifies e
    ensures Coded(e, AcMagnitude(tbl, kx, pos, v))
  {
    hide ArithEncoder.Valid, Tail, Levels, Pow2, Shift, Run, Step;
    MagnitudeCases(tbl, kx, pos, v);
    var bin := Stat(AcArea(tbl), 3 * (pos - 1) + 2);
    if v != 0 {
      e.Encode(bin, 1);
      if v / 2 != 0 {
        e.Encode(bin, 1);
        var _ := EncodeTail(e, AcArea(tbl), AcBase(kx, pos), 1, v);
        return;
      }
    }
    e.Encode(bin, 0);
  }

  lemma MagnitudeCases(tbl: nat, kx: nat, pos: nat, v: nat)
    requires 0 < pos
    ensures var bin := Stat(AcArea(tbl), 3 * (pos - 1) + 2);
      && (v == 0 ==> AcMagnitude(tbl, kx, pos, v) == [Decision(bin, 0)])
      && (v == 1 ==> AcMagnitude(tbl, kx, pos, v) == [Decision(bin, 1)] + [Decision(bin, 0)])
      && Shift(v, 1) == v / 2
      && (v / 2 != 0 ==> AcMagnitude(tbl, kx, pos, v)
                         == [Decision(bin, 1)] + ([Decision(bin, 1)] + Tail(AcArea(tbl), AcBase(kx, pos), 1, v)))
  {
  }

  /** Point-transformed coefficients at positions k + 1 to se. */
  function After(x: Zigzag, se: nat, al: nat, k: nat): (c: seq<int>)
    requires k <= se < 64
    ensures |c| == se - k
    decreases se - k
  {
    if k == se then [] else [Point(x[k + 1], al)] + After(x, se, al, k + 1)
  }

  lemma AfterStep(x: Zigzag, se: nat, al: nat, k: nat)
    requires k < se < 64
    ensures After(x, se, al, k) != [] && After(x, se, al, k)[0] == Point(x[k + 1], al)
    ensures After(x, se, al, k)[1..] == After(x, se, al, k + 1)
  {
  }

  lemma {:induction false} AfterIsPoints(x: Zigzag, se: nat, al: nat, k: nat)
    requires k <= se < 64
    ensures After(x, se, al, k) == Points(x[k + 1..se + 1], al)
    decreases se - k
  {
    if k < se {
      AfterIsPoints(x, se, al, k + 1);
      assert x[k + 1..se + 1] == [x[k + 1]] + x[k + 2..se + 1];
    }
  }

  /** `ke` is the end-of-block index. */
  ghost predicate IsEob(x: Zigzag, se: nat, al: nat, ke: nat)
    requires se < 64
  {
    && ke <= se && (ke != 0 ==> Point(x[ke], al) != 0)
    && forall j :: ke < j <= se ==> Point(x[j], al) == 0
  }

  lemma {:induction false} QuietAfter(x: Zigzag, se: nat, al: nat, k: nat, ke: nat)
    requires k <= se < 64 && IsEob(x, se, al, ke)
    ensures Quiet(After(x, se, al, k)) <==> ke <= k
    decreases se - k
  {
    hide Point;
    if k < se {
      QuietAfter(x, se, al, k + 1, ke);
    }
  }

  method FindEob(order: seq<nat>, block: Zigzag, se: nat, al: nat, from: nat) returns (ke: nat)
    requires IsOrder(order) && from <= se < 64
    requires forall j :: from < j <= se ==> Point(block[order[j]], al) == 0
    ensures IsEob(InZigzag(order, block), se, al, ke)
  {
    hide Point;
    ke := from;
    while ke > 0 && Point(block[order[ke]], al) == 0
      invariant ke <= se
      invariant forall j :: ke < j <= se ==> Point(block[order[j]], al) == 0
    {
      ke := ke - 1;
    }
  }

  /** Figure F.5: the zero run after position `from`, and the decision that a
      nonzero coefficient follows it. */
  method EncodeRun(e: ArithEncoder, tbl: nat, kx: nat, order: seq<nat>, block: Zigzag, se: nat,
                   al: nat, ghost ke: nat, from: nat) returns (k: nat, value: int)
    requires e.Valid() && tbl < NUM_ARITH_TBLS && se < 64 && IsOrder(order)
    requires from < ke && IsJcoef(block) && IsEob(InZigzag(order, block), se, al, ke)
    requires !Quiet(After(InZigzag(order, block), se, al, from))
    modifies e
    ensures from < k <= ke && value == Point(block[order[k]], al) && 0 < Abs(value) <= 0x8000
    ensures e.Valid() && e.before == old(e.before) && e.initial == old(e.initial)
    ensures var x := InZigzag(order, block);
      old(e.history) + AcRun(tbl, kx, from, After(x, se, al, from))
      == e.history + (AcValue(tbl, kx, k, value) + AcRest(tbl, kx, k, After(x, se, al, k)))
  {
    hide ArithEncoder.Valid, Run, Step, AcValue, AcRest, Point, LegalRun, After, Quiet;
    ghost var x := InZigzag(order, block);
    k, value := from + 1, Point(block[order[from + 1]], al);
    while value == 0
      invariant e.Valid() && e.before == old(e.before) && e.initial == old(e.initial)
      invariant from < k <= ke && value == Point(block[order[k]], al)
      invariant !Quiet(After(x, se, al, k - 1))
      invariant old(e.history) + AcRun(tbl, kx, from, After(x, se, al, from))
             == e.history + AcRun(tbl, kx, k - 1, After(x, se, al, k - 1))
      decreases ke - k
    {
      AfterStep(x, se, al, k - 1);
      RunStep(tbl, kx, k - 1, After(x, se, al, k - 1));
      QuietAfter(x, se, al, k, ke);
      Regroup(e.history, [Decision(Stat(AcArea(tbl), 3 * (k - 1) + 1), 0)],
              AcRun(tbl, kx, k, After(x, se, al, k)));
      e.Encode(Stat(AcArea(tbl), 3 * (k - 1) + 1), 0);
      k := k + 1;
      value := Point(block[order[k]], al);
    }
    AfterStep(x, se, al, k - 1);
    RunStep(tbl, kx, k - 1, After(x, se, al, k - 1));
    PointBounds(block[order[k]], al);
    Regroup(e.history, [Decision(Stat(AcArea(tbl), 3 * (k - 1) + 1), 1)],
            AcValue(tbl, kx, k, value) + AcRest(tbl, kx, k, After(x, se, al, k)));
    e.Encode(Stat(AcArea(tbl), 3 * (k - 1) + 1), 1);
  }

  lemma RunStep(tbl: nat, kx: nat, pos: nat, c: seq<int>)
    requires !Quiet(c)
    ensures var bin := Stat(AcArea(tbl), 3 * pos + 1);
      if c[0] == 0 then
        !Quiet(c[1..]) && AcRun(tbl, kx, pos, c) == [Decision(bin, 0)] + AcRun(tbl, kx, pos + 1, c[1..])
      else
        AcRun(tbl, kx, pos, c)
        == [Decision(bin, 1)] + (AcValue(tbl, kx, pos + 1, c[0]) + AcRest(tbl, kx, pos + 1, c[1..]))
  {
  }

  lemma RestStep(tbl: nat, kx: nat, pos: nat, c: seq<int>)
    ensures c == [] ==> AcRest(tbl, kx, pos, c) == []
    ensures c != [] && Quiet(c) ==> AcRest(tbl, kx, pos, c) == [Decision(Stat(AcArea(tbl), 3 * pos), 1)]
    ensures !Quiet(c) ==> AcRest(tbl, kx, pos, c)
                          == [Decision(Stat(AcArea(tbl), 3 * pos), 0)] + AcRun(tbl, kx, pos, c)
  {
  }

  /** The AC coefficients of positions `start` to `se` after the point transform
      (Figure F.5). */
  method EncodeBand(e: ArithEncoder, tbl: nat, kx: nat, order: seq<nat>, block: Zigzag, start: nat,
                    se: nat, al: nat)
    requires e.Valid() && tbl < NUM_ARITH_TBLS && 0 < start <= se < 64 && IsOrder(order)
    requires IsJcoef(block)
    modifies e
    ensures Coded(e, AcRest(tbl, kx, start - 1, After(InZigzag(order, block), se, al, start - 1)))
  {
    hide ArithEncoder.Valid, Run, Step, AcRest, Point, LegalRun, Quiet, AcRun, AcValue, IsOrder, After,
      IsJcoef, InZigzag;
    ghost var x := InZigzag(order, block);
    ghost var all := AcRest(tbl, kx, start - 1, After(x, se, al, start - 1));
    var ke := FindEob(order, block, se, al, se);
    var k := start - 1;
    while k < ke
      invariant e.Valid() && e.before == old(e.before) && e.initial == old(e.initial)
      invariant start - 1 <= k <= se
      invariant old(e.history) + all == e.history + AcRest(tbl, kx, k, After(x, se, al, k))
      decreases se - k
    {
      QuietAfter(x, se, al, k, ke);
      RestStep(tbl, kx, k, After(x, se, al, k));
      Regroup(e.history, [Decision(Stat(AcArea(tbl), 3 * k), 0)], AcRun(tbl, kx, k, After(x, se, al, k)));
      e.Encode(Stat(AcArea(tbl), 3 * k), 0);
      var value;
      k, value := EncodeRun(e, tbl, kx, order, block, se, al, ke, k);
      Regroup(e.history, AcValue(tbl, kx, k, value), AcRest(tbl, kx, k, After(x, se, al, k)));
      EncodeAcValue(e, tbl, kx, k, value);
    }
    QuietAfter(x, se, al, k, ke);
    RestStep(tbl, kx, k, After(x, se, al, k));
    if k < se {
      e.Encode(Stat(AcArea(tbl), 3 * k), 1);
    }
  }

  // -------------------------------------------------------- AC refinement

  /** Zeros at this stage were zeros at the previous one. */
  lemma EarlierZeros(x: Zigzag, se: nat, al: nat, ke: nat)
    requires se < 64 && IsEob(x, se, al, ke)
    ensures forall j :: ke < j <= se ==> Point(x[j], al + 1) == 0
  {
    forall j | ke < j <= se
      ensures Point(x[j], al + 1) == 0
    {
      StageOfPoint(x[j], al);
    }
  }

  lemma EobIsLast(x: Zigzag, se: nat, al: nat, ke: nat)
    requires se < 64 && IsEob(x, se, al, ke)
    ensures ke == LastNonzero(Points(x, al), se)
  {
    hide Point;
    var last := LastNonzero(Points(x, al), se);
    assert forall j :: 0 <= j < 64 ==> Points(x, al)[j] == Point(x[j], al);
  }

  lemma RefRunStep(tbl: nat, kex: nat, pos: nat, t: seq<int>)
    requires !Quiet(t)
    ensures if t[0] == 0 then
        && !Quiet(t[1..])
        && RefRun(tbl, kex, pos, t)
           == [Decision(Stat(AcArea(tbl), 3 * pos + 1), 0)] + RefRun(tbl, kex, pos + 1, t[1..])
      else RefRun(tbl, kex, pos, t) == RefValue(tbl, pos, t[0]) + RefRest(tbl, kex, pos + 1, t[1..])
  {
  }

  lemma RefRestStep(tbl: nat, kex: nat, pos: nat, t: seq<int>)
    ensures t == [] ==> RefRest(tbl, kex, pos, t) == []
    ensures t != [] && Quiet(t) ==>
              RefRest(tbl, kex, pos, t) == [Decision(Stat(AcArea(tbl), 3 * pos), 1)]
    ensures !Quiet(t) && kex <= pos ==>
              RefRest(tbl, kex, pos, t)
              == [Decision(Stat(AcArea(tbl), 3 * pos), 0)] + RefRun(tbl, kex, pos, t)
    ensures !Quiet(t) && pos < kex ==> RefRest(tbl, kex, pos, t) == RefRun(tbl, kex, pos, t)
  {
  }

  /** A correction bit, or a new nonzero coefficient with its sign. */
  method EncodeRefValue(e: ArithEncoder, tbl: nat, pos: nat, value: int)
    requires e.Valid() && tbl < NUM_ARITH_TBLS && pos < 63 && value != 0
    modifies e
    ensures Coded(e, RefValue(tbl, pos, value))
  {
    hide ArithEncoder.Valid, Run, Step;
    var v := Abs(value);
    if v / 2 != 0 {
      e.Encode(Stat(AcArea(tbl), 3 * pos + 2), v % 2);
    } else {
      e.Encode(Stat(AcArea(tbl), 3 * pos + 1), 1);
      e.Encode(Fixed, SignBit(value));
    }
  }

  /** Figure G.10: decisions after position `from` up to and with the next
      coefficient that is nonzero at this stage, at `k`. */
  method EncodeRefRun(e: ArithEncoder, tbl: nat, kex: nat, order: seq<nat>, block: Zigzag, se: nat,
                      al: nat, ghost ke: nat, from: nat) returns (k: nat)
    requires e.Valid() && tbl < NUM_ARITH_TBLS && se < 64 && IsOrder(order)
    requires from < ke && IsEob(InZigzag(order, block), se, al, ke)
    requires !Quiet(After(InZigzag(order, block), se, al, from))
    modifies e
    ensures from < k <= ke
    ensures e.Valid() && e.before == old(e.before) && e.initial == old(e.initial)
    ensures var x := InZigzag(order, block);
      old(e.history) + RefRun(tbl, kex, from, After(x, se, al, from))
      == e.history + RefRest(tbl, kex, k, After(x, se, al, k))
  {
    hide ArithEncoder.Valid, Run, Step, RefValue, RefRest, RefRun, Point, LegalRun, After, Quiet;
    ghost var x := InZigzag(order, block);
    var value := Point(block[order[from + 1]], al);
    k := from + 1;
    while value == 0
      invariant e.Valid() && e.before == old(e.before) && e.initial == old(e.initial)
      invariant from < k <= ke && value == Point(block[order[k]], al)
      invariant !Quiet(After(x, se, al, k - 1))
      invariant old(e.history) + RefRun(tbl, kex, from, After(x, se, al, from))
             == e.history + RefRun(tbl, kex, k - 1, After(x, se, al, k - 1))
      decreases ke - k
    {
      AfterStep(x, se, al, k - 1);
      RefRunStep(tbl, kex, k - 1, After(x, se, al, k - 1));
      QuietAfter(x, se, al, k, ke);
      Regroup(e.history, [Decision(Stat(AcArea(tbl), 3 * (k - 1) + 1), 0)],
              RefRun(tbl, kex, k, After(x, se, al, k)));
      e.Encode(Stat(AcArea(tbl), 3 * (k - 1) + 1), 0);
      k := k + 1;
      value := Point(block[order[k]], al);
    }
    AfterStep(x, se, al, k - 1);
    RefRunStep(tbl, kex, k - 1, After(x, se, al, k - 1));
    Regroup(e.history, RefValue(tbl, k - 1, value), RefRest(tbl, kex, k, After(x, se, al, k)));
    EncodeRefValue(e, tbl, k - 1, value);
  }

  method EncodeRefinement(e: ArithEncoder, tbl: nat, order: seq<nat>, block: Zigzag, ss: nat, se: nat,
                          al: nat)
    requires e.Valid() && tbl < NUM_ARITH_TBLS && 0 < ss <= se < 64 && IsOrder(order)
    modifies e
    ensures var x := InZigzag(order, block);
      Coded(e, RefRest(tbl, LastNonzero(Points(x, al + 1), se), ss - 1, After(x, se, al, ss - 1)))
  {
    hide ArithEncoder.Valid, Run, Step, RefRest, Point, LegalRun, Quiet, RefRun, IsOrder, After,
      LastNonzero, Points;
    ghost var x := InZigzag(order, block);
    var ke := FindEob(order, block, se, al, se);
    EarlierZeros(x, se, al, ke);
    var kex := FindEob(order, block, se, al + 1, ke);
    EobIsLast(x, se, al + 1, kex);
    ghost var all := RefRest(tbl, kex, ss - 1, After(x, se, al, ss - 1));
    var k := ss - 1;
    while k < ke
      invariant e.Valid() && e.before == old(e.before) && e.initial == old(e.initial)
      invariant ss - 1 <= k <= se
      invariant old(e.history) + all == e.history + RefRest(tbl, kex, k, After(x, se, al, k))
      decreases se - k
    {
      QuietAfter(x, se, al, k, ke);
      RefRestStep(tbl, kex, k, After(x, se, al, k));
      if k >= kex {
        Regroup(e.history, [Decision(Stat(AcArea(tbl), 3 * k), 0)],
                RefRun(tbl, kex, k, After(x, se, al, k)));
        e.Encode(Stat(AcArea(tbl), 3 * k), 0);
      }
      k := EncodeRefRun(e, tbl, kex, order, block, se, al, ke, k);
    }
    QuietAfter(x, se, al, k, ke);
    RefRestStep(tbl, kex, k, After(x, se, al, k));
    if k < se {
      e.Encode(Stat(AcArea(tbl), 3 * k), 1);
    }
  }

  // ---------------------------------------------------------------- blocks

  lemma BandIsAfter(s: Scan, x: Zigzag)
    requires ValidScan(s) && BandStart(s) <= s.se
    requires s.mode == Sequential || s.mode == AcFirst || s.mode == AcRefine
    ensures BandOf(s, x) == After(x, s.se, s.al, BandStart(s) - 1)
  {
    hide Point, After, Points;
    AfterIsPoints(x, s.se, s.al, BandStart(s) - 1);
    if s.mode == Sequential {
      PointsOfNothing(x[1..s.se + 1]);
    }
  }

  lemma {:induction false} PointsOfNothing(c: seq<int>)
    ensures Points(c, 0) == c
  {
    if c != [] {
      PointsOfNothing(c[1..]);
      assert c == [c[0]] + c[1..];
    }
  }

  /** DC of a first pass or a sequential scan. */
  method EncodeDc(e: ArithEncoder, s: Scan, p: Pred, ci: nat, order: seq<nat>, block: Zigzag)
    returns (q: Pred)
    requires e.Valid() && ValidScan(s) && CoefPred(s, p) && ci < |s.comps| && IsOrder(order)
    requires IsJcoef(block)
    modifies e
    ensures var x := InZigzag(order, block);
      && Coded(e, DcDecisions(s, p, ci, x)) && q == AfterDc(s, p, ci, DcOf(s, x) - p.lastDc[ci])
  {
    hide ArithEncoder.Valid, Run, Step, DcDiff, DcContext, Pow2, ShiftDown;
    DcOfCoef(block[0], s.al);
    var m := ShiftDown(block[0], s.al);
    var tbl, diff := s.comps[ci].dcTbl, m - p.lastDc[ci];
    var ctx := EncodeDcDiff(e, tbl, p.ctx[ci], diff, s.cond.dcL[tbl], s.cond.dcU[tbl]);
    q := Pred(p.lastDc[ci := m], p.ctx[ci := ctx]);
  }

  /** The AC band of a sequential or first-stage block, if there is one. */
  method EncodeAc(e: ArithEncoder, s: Scan, ci: nat, order: seq<nat>, block: Zigzag)
    requires e.Valid() && ValidScan(s) && ci < |s.comps| && IsOrder(order) && IsJcoef(block)
    requires s.mode == Sequential || s.mode == AcFirst
    modifies e
    ensures Coded(e, BandDecisions(s, ci, InZigzag(order, block)))
  {
    hide ArithEncoder.Valid, Run, Step, AcRest, LegalRun, After, IsJcoef, InZigzag;
    var tbl := s.comps[ci].acTbl;
    if s.se != 0 {
      BandIsAfter(s, InZigzag(order, block));
      EncodeBand(e, tbl, s.cond.acK[tbl], order, block, BandStart(s), s.se, s.al);
    } else {
      RestStep(tbl, s.cond.acK[tbl], BandStart(s) - 1, []);
    }
  }

  method EncodeBlock(e: ArithEncoder, s: Scan, p: Pred, ci: nat, order: seq<nat>, block: Zigzag)
    returns (q: Pred)
    requires e.Valid() && ValidScan(s) && CoefPred(s, p) && ci < |s.comps| && IsOrder(order)
    requires IsJcoef(block)
    modifies e
    ensures var x := InZigzag(order, block);
      Coded(e, BlockDecisions(s, p, ci, x)) && q == AfterBlock(s, p, ci, x)
  {
    hide ArithEncoder.Valid, Run, Step, DcDecisions, BandDecisions, RefRest, LegalRun, AfterDc, After,
      LastNonzero, Points, ShiftDown, IsJcoef;
    q := p;
    match s.mode
    case Sequential =>
      q := EncodeDc(e, s, p, ci, order, block);
      EncodeAc(e, s, ci, order, block);
    case DcFirst =>
      q := EncodeDc(e, s, p, ci, order, block);
    case AcFirst =>
      EncodeAc(e, s, ci, order, block);
    case DcRefine =>
      e.Encode(Fixed, ShiftDown(block[0], s.al) % 2);
    case AcRefine =>
      BandIsAfter(s, InZigzag(order, block));
      EncodeRefinement(e, s.comps[ci].acTbl, order, block, s.ss, s.se, s.al);
  }
}
