/** The decisions of a block spelled out: for every coefficient which statistics bins it is coded
    in, with the numbers of jcarith.c (T.81 Tables F.4 and F.5). */
module ArithBins {
  import opened Powers
  import opened Coefficients
  import opened IntervalCoder
  import opened ArithBinarization
  import opened ArithScan
  import opened ArithSegment

  // -------------------------------------------------------------- numbers

  function Negative(v: int): nat
  {
    if v < 0 then 1 else 0
  }

  // ------------------------------------------------------------- magnitudes

  /** `n` decisions 1 and a 0, each in the next bin. */
  function Category(area: Area, x: nat, n: nat): (ds: seq<Decision>)
    ensures |ds| == n + 1 && forall i :: 0 <= i <= n ==> ds[i] == Decision(Stat(area, x + i), if i < n then 1 else 0)
  {
    seq(n + 1, i requires 0 <= i <= n => Decision(Stat(area, x + i), if i < n then 1 else 0))
  }

  /** The low `n` bits of `m`, high bit first, all in one bin. */
  function Pattern(bin: Bin, m: nat, n: nat): (ds: seq<Decision>)
    ensures |ds| == n && forall i :: 0 <= i < n ==> ds[i] == Decision(bin, m / Pow2(n - 1 - i) % 2)
  {
    seq(n, i requires 0 <= i < n => Decision(bin, m / Pow2(n - 1 - i) % 2))
  }

  lemma {:induction false} ChainIs(area: Area, base: nat, i: nat, v: nat)
    requires v > 0
    ensures Chain(area, base, i, v) == Category(area, base + i, Levels(v))
    decreases v
  {
    if v / 2 != 0 {
      ChainIs(area, base, i + 1, v / 2);
    }
  }

  lemma {:induction false} LowBitsIs(bin: Bin, j: nat, v: nat)
    ensures LowBits(bin, j, v) == Pattern(bin, v, j)
    decreases j
  {
    if j != 0 {
      LowBitsIs(bin, j - 1, v);
      ShiftIsDivision(v, j - 1);
      hide Shift, Pow2;
    }
  }

  // --------------------------------------------------------- DC differences

  /** A DC difference: zero or not in bin S0, the sign in S0 + 1, magnitude one or not in S0 + 2 or
      S0 + 3; the category from bin 20 on, and its bits fourteen bins further on. */
  function DcSpelled(tbl: nat, s0: nat, diff: int): seq<Decision>
  {
    var area, m := DcArea(tbl), Abs(diff) - 1;
    if diff == 0 then [Decision(Stat(area, s0), 0)]
    else
      [Decision(Stat(area, s0), 1), Decision(Stat(area, s0 + 1), Negative(diff))]
      + if m == 0 then [Decision(Stat(area, s0 + 2 + Negative(diff)), 0)]
        else
          var n := Levels(m);
          [Decision(Stat(area, s0 + 2 + Negative(diff)), 1)]
          + Category(area, 20, n) + Pattern(Stat(area, 20 + n + 14), m, n)
  }

  lemma DcDiffIs(tbl: nat, s0: nat, diff: int)
    ensures DcDiff(tbl, s0, diff) == DcSpelled(tbl, s0, diff)
  {
    hide Chain, LowBits, Category, Pattern, Levels;
    var area, m := DcArea(tbl), Abs(diff) - 1;
    if diff != 0 && m != 0 {
      ChainIs(area, 20, 0, m);
      LowBitsIs(Stat(area, 20 + Levels(m) + 14), Levels(m), m);
      assert Shift(m, 0) == m;
    }
  }

  /** The next context: 0 for no difference or one below the lower bound, 4 or 8 for a small
      one by its sign, 12 or 16 for one above the upper bound. */
  function ContextSpelled(diff: int, lower: nat, upper: nat): nat
  {
    if diff == 0 || Abs(diff) - 1 < Pow2(lower) / 2 then 0
    else if Abs(diff) > Pow2(upper) then if diff > 0 then 12 else 16
    else if diff > 0 then 4 else 8
  }

  lemma ContextIs(diff: int, lower: nat, upper: nat)
    ensures DcContext(diff, lower, upper) == ContextSpelled(diff, lower, upper)
  {
    var v := Abs(diff) - 1;
    if v > 0 {
      LevelsBound(v);
      HalfBelow(Levels(v), v, lower);
      HalfBelow(Levels(v), v, upper);
    }
    hide Levels;
  }

  /** A number against half a power of two, by its highest bit. */
  lemma HalfBelow(n: nat, v: nat, b: nat)
    requires Pow2(n) <= v < 2 * Pow2(n)
    ensures v < Pow2(b) / 2 <==> Pow2(n) < Pow2(b) / 2
    ensures v + 1 > Pow2(b) <==> Pow2(n) > Pow2(b) / 2
  {
    hide Pow2;
    if b == 0 {
      Pow2Small();
    } else {
      PowHalf(b);
      PowHalf(n + 1);
      if n < b - 1 {
        Pow2Monotone(n + 1, b - 1);
      } else if n >= b {
        Pow2Monotone(b, n);
      }
      HalfBelowOf(Pow2(n), v, Pow2(b - 1));
    }
  }

  lemma PowHalf(b: nat)
    requires b > 0
    ensures Pow2(b) == 2 * Pow2(b - 1) && Pow2(b) / 2 == Pow2(b - 1)
  {
  }

  lemma HalfBelowOf(q: nat, v: nat, h: nat)
    requires q <= v < 2 * q && 0 < h && (2 * q <= h || q == h || 2 * h <= q)
    ensures v < h <==> q < h
    ensures v + 1 > 2 * h <==> q > h
  {
  }

  // -------------------------------------------------------- AC coefficients

  /** Magnitude less one, `m`, of a coefficient at zigzag position `k`: bin 3k - 1, from 2 on the
      category from bin 189 or 217 on, by Kx, and its bits fourteen bins further on. */
  function MagnitudeSpelled(tbl: nat, kx: nat, k: nat, m: nat): seq<Decision>
    requires 0 < k
  {
    var area := AcArea(tbl);
    var bin, x := Stat(area, 3 * k - 1), if k <= kx then 189 else 217;
    if m == 0 then [Decision(bin, 0)]
    else
      [Decision(bin, 1)]
      + if m == 1 then [Decision(bin, 0)]
        else
          var n := Levels(m);
          assert n > 0;
          [Decision(bin, 1)] + (Category(area, x, n - 1) + Pattern(Stat(area, x + n - 1 + 14), m, n))
  }

  /** A nonzero coefficient: the sign in the fixed bin, then the magnitude. */
  function ValueSpelled(tbl: nat, kx: nat, k: nat, v: int): seq<Decision>
    requires 0 < k && v != 0
  {
    [Decision(Fixed, Negative(v))] + MagnitudeSpelled(tbl, kx, k, Abs(v) - 1)
  }

  lemma AcTailIs(area: Area, x: nat, m: nat)
    requires m > 1 && 0 < x
    ensures Levels(m) > 0 && Shift(m, 1) > 0
    ensures Tail(area, x - 1, 1, m)
         == Category(area, x, Levels(m) - 1) + Pattern(Stat(area, x + Levels(m) - 1 + 14), m, Levels(m))
  {
    hide Chain, LowBits, Category, Pattern;
    assert Shift(m, 1) == m / 2;
    assert Levels(m) == 1 + Levels(m / 2);
    hide Levels, Shift;
    ChainIs(area, x - 1, 1, m / 2);
    LowBitsIs(Stat(area, x - 1 + Levels(m) + 14), Levels(m), m);
  }

  lemma AcMagnitudeIs(tbl: nat, kx: nat, k: nat, m: nat)
    requires 0 < k
    ensures AcMagnitude(tbl, kx, k, m) == MagnitudeSpelled(tbl, kx, k, m)
  {
    hide Tail, Category, Pattern, Shift, Levels;
    var x := if k <= kx then 189 else 217;
    assert 3 * (k - 1) + 2 == 3 * k - 1 && AcBase(kx, k) == x - 1;
    hide AcBase;
    if m > 1 {
      assert m / 2 != 0;
      AcTailIs(AcArea(tbl), x, m);
    }
  }

  lemma AcValueIs(tbl: nat, kx: nat, k: nat, v: int)
    requires 0 < k && v != 0
    ensures AcValue(tbl, kx, k, v) == ValueSpelled(tbl, kx, k, v)
  {
    hide AcMagnitude, MagnitudeSpelled;
    AcMagnitudeIs(tbl, kx, k, Abs(v) - 1);
  }

  // ------------------------------------------------------------------ bands

  /** The value that a band codes at position `k`. */
  function Value(s: Scan, x: Zigzag, k: nat): int
    requires k < 64
  {
    Transformed(x[k], s.al)
  }

  /** Nothing but zeros from position `k` on. */
  predicate NoMore(s: Scan, x: Zigzag, k: nat)
    requires s.se < 64
  {
    forall j :: k <= j <= s.se ==> Value(s, x, j) == 0
  }

  /** Nothing was sent from position `k` on by the scan before. */
  predicate NoneOld(s: Scan, x: Zigzag, k: nat)
    requires s.se < 64
  {
    forall j :: k <= j <= s.se ==> Abs(x[j]) / Pow2(s.al + 1) == 0
  }

  /** The end of the block may be at `k`: the band begins there or a nonzero value is before. */
  predicate AfterValue(s: Scan, x: Zigzag, start: nat, k: nat)
    requires 0 < start <= k < 64
  {
    k == start || Value(s, x, k - 1) != 0
  }

  /** What is coded for position `k`: in bin 3(k - 1) whether the block ends, in the next whether
      the value is zero. */
  function AtPosition(s: Scan, ci: nat, x: Zigzag, start: nat, k: nat): seq<Decision>
    requires ValidScan(s) && ci < |s.comps| && 0 < start <= k <= s.se
  {
    var tbl := s.comps[ci].acTbl;
    var ends, zero := Stat(AcArea(tbl), 3 * (k - 1)), Stat(AcArea(tbl), 3 * (k - 1) + 1);
    if NoMore(s, x, k) then if AfterValue(s, x, start, k) then [Decision(ends, 1)] else []
    else
      (if AfterValue(s, x, start, k) then [Decision(ends, 0)] else [])
      + if Value(s, x, k) == 0 then [Decision(zero, 0)]
        else [Decision(zero, 1)] + ValueSpelled(tbl, s.cond.acK[tbl], k, Value(s, x, k))
  }

  function FromPosition(s: Scan, ci: nat, x: Zigzag, start: nat, k: nat): seq<Decision>
    requires ValidScan(s) && ci < |s.comps| && 0 < start <= k
    decreases s.se + 1 - k
  {
    if k > s.se then [] else AtPosition(s, ci, x, start, k) + FromPosition(s, ci, x, start, k + 1)
  }

  /** The values of a band from `k` on. */
  ghost predicate Values(s: Scan, x: Zigzag, k: nat, c: seq<int>)
  {
    s.se < 64 && k + |c| == s.se + 1 && forall i :: 0 <= i < |c| ==> c[i] == Value(s, x, k + i)
  }

  lemma {:induction false} QuietMeans(s: Scan, x: Zigzag, k: nat, c: seq<int>)
    requires Values(s, x, k, c)
    ensures Quiet(c) <==> NoMore(s, x, k)
    decreases |c|
  {
    hide Value;
    if c != [] {
      assert c[0] == Value(s, x, k);
      assert forall i :: 0 <= i < |c[1..]| ==> c[1..][i] == Value(s, x, k + 1 + i);
      QuietMeans(s, x, k + 1, c[1..]);
    }
  }

  lemma {:induction false} NothingMore(s: Scan, ci: nat, x: Zigzag, start: nat, k: nat)
    requires ValidScan(s) && ci < |s.comps| && 0 < start < k <= s.se + 1
    requires NoMore(s, x, k) && Value(s, x, k - 1) == 0
    ensures FromPosition(s, ci, x, start, k) == []
    decreases s.se + 1 - k
  {
    hide Value, ValueSpelled;
    if k <= s.se {
      NothingMore(s, ci, x, start, k + 1);
    }
  }

  /** From position `k` on, without the decision on the end of the block there. */
  function FromRun(s: Scan, ci: nat, x: Zigzag, start: nat, k: nat): seq<Decision>
    requires ValidScan(s) && ci < |s.comps| && 0 < start <= k <= s.se
  {
    var tbl := s.comps[ci].acTbl;
    var zero := Stat(AcArea(tbl), 3 * (k - 1) + 1);
    (if Value(s, x, k) == 0 then [Decision(zero, 0)]
     else [Decision(zero, 1)] + ValueSpelled(tbl, s.cond.acK[tbl], k, Value(s, x, k)))
    + FromPosition(s, ci, x, start, k + 1)
  }

  lemma FromSplit(s: Scan, ci: nat, x: Zigzag, start: nat, k: nat)
    requires ValidScan(s) && ci < |s.comps| && 0 < start <= k <= s.se && !NoMore(s, x, k)
    ensures FromPosition(s, ci, x, start, k)
         == if AfterValue(s, x, start, k)
            then [Decision(Stat(AcArea(s.comps[ci].acTbl), 3 * (k - 1)), 0)] + FromRun(s, ci, x, start, k)
            else FromRun(s, ci, x, start, k)
  {
    hide Value, ValueSpelled, NoMore, AfterValue;
    var tbl := s.comps[ci].acTbl;
    var zero := Stat(AcArea(tbl), 3 * (k - 1) + 1);
    var at := if Value(s, x, k) == 0 then [Decision(zero, 0)]
              else [Decision(zero, 1)] + ValueSpelled(tbl, s.cond.acK[tbl], k, Value(s, x, k));
    Regroup([Decision(Stat(AcArea(tbl), 3 * (k - 1)), 0)], at, FromPosition(s, ci, x, start, k + 1));
    assert [] + at == at;
  }

  /** First-stage bands. */
  lemma {:induction false} RestIs(s: Scan, ci: nat, x: Zigzag, start: nat, k: nat, c: seq<int>)
    requires ValidScan(s) && ci < |s.comps| && 0 < start <= k && Values(s, x, k, c)
    requires c == [] || AfterValue(s, x, start, k)
    ensures FromPosition(s, ci, x, start, k)
         == AcRest(s.comps[ci].acTbl, s.cond.acK[s.comps[ci].acTbl], k - 1, c)
    decreases |c|, 1
  {
    hide Value, ValueSpelled, AcValue, AcRun, NoMore, FromRun;
    if c != [] {
      QuietMeans(s, x, k, c);
      assert c[0] == Value(s, x, k);
      if Quiet(c) {
        NothingAfter(s, x, k);
        NothingMore(s, ci, x, start, k + 1);
      } else {
        FromSplit(s, ci, x, start, k);
        RunIs(s, ci, x, start, k, c);
      }
    }
  }

  lemma NothingAfter(s: Scan, x: Zigzag, k: nat)
    requires s.se < 64 && k <= s.se && NoMore(s, x, k)
    ensures NoMore(s, x, k + 1) && Value(s, x, k) == 0
  {
    hide Value;
  }

  lemma {:induction false} RunIs(s: Scan, ci: nat, x: Zigzag, start: nat, k: nat, c: seq<int>)
    requires ValidScan(s) && ci < |s.comps| && 0 < start <= k && Values(s, x, k, c) && !Quiet(c)
    ensures FromRun(s, ci, x, start, k)
         == AcRun(s.comps[ci].acTbl, s.cond.acK[s.comps[ci].acTbl], k - 1, c)
    decreases |c|, 0
  {
    hide Value, ValueSpelled, AcValue;
    var tbl, d := s.comps[ci].acTbl, c[1..];
    assert c[0] == Value(s, x, k);
    assert Values(s, x, k + 1, d) by {
      assert forall i :: 0 <= i < |d| ==> d[i] == Value(s, x, k + 1 + i);
    }
    if c[0] == 0 {
      QuietMeans(s, x, k + 1, d);
      FromSplit(s, ci, x, start, k + 1);
      RunIs(s, ci, x, start, k + 1, d);
    } else {
      AcValueIs(tbl, s.cond.acK[tbl], k, c[0]);
      RestIs(s, ci, x, start, k + 1, d);
    }
  }

  // ------------------------------------------------------------- refinement

  /** A nonzero value in a refinement scan: a correction bit in bin 3(k - 1) + 2, or in bin
      3(k - 1) + 1 that it is new, and its sign. */
  function RefinedSpelled(tbl: nat, k: nat, v: int): seq<Decision>
    requires 0 < k && v != 0
  {
    var area := AcArea(tbl);
    if Abs(v) > 1 then [Decision(Stat(area, 3 * (k - 1) + 2), Abs(v) % 2)]
    else [Decision(Stat(area, 3 * (k - 1) + 1), 1), Decision(Fixed, Negative(v))]
  }

  lemma RefValueIs(tbl: nat, k: nat, v: int)
    requires 0 < k && v != 0
    ensures RefValue(tbl, k - 1, v) == RefinedSpelled(tbl, k, v)
  {
  }

  /** What a refinement scan codes for position `k`; that the block does not end is coded only
      where the scans before sent nothing more. */
  function RefinedAt(s: Scan, ci: nat, x: Zigzag, k: nat): seq<Decision>
    requires ValidScan(s) && ci < |s.comps| && 0 < s.ss <= k <= s.se
  {
    var tbl := s.comps[ci].acTbl;
    var ends, zero := Stat(AcArea(tbl), 3 * (k - 1)), Stat(AcArea(tbl), 3 * (k - 1) + 1);
    if NoMore(s, x, k) then if AfterValue(s, x, s.ss, k) then [Decision(ends, 1)] else []
    else
      (if AfterValue(s, x, s.ss, k) && NoneOld(s, x, k) then [Decision(ends, 0)] else [])
      + if Value(s, x, k) == 0 then [Decision(zero, 0)] else RefinedSpelled(tbl, k, Value(s, x, k))
  }

  function RefinedFrom(s: Scan, ci: nat, x: Zigzag, k: nat): seq<Decision>
    requires ValidScan(s) && ci < |s.comps| && 0 < s.ss <= k
    decreases s.se + 1 - k
  {
    if k > s.se then [] else RefinedAt(s, ci, x, k) + RefinedFrom(s, ci, x, k + 1)
  }

  function RefinedRun(s: Scan, ci: nat, x: Zigzag, k: nat): seq<Decision>
    requires ValidScan(s) && ci < |s.comps| && 0 < s.ss <= k <= s.se
  {
    var tbl := s.comps[ci].acTbl;
    (if Value(s, x, k) == 0 then [Decision(Stat(AcArea(tbl), 3 * (k - 1) + 1), 0)]
     else RefinedSpelled(tbl, k, Value(s, x, k)))
    + RefinedFrom(s, ci, x, k + 1)
  }

  lemma RefinedSplit(s: Scan, ci: nat, x: Zigzag, k: nat)
    requires ValidScan(s) && ci < |s.comps| && 0 < s.ss <= k <= s.se && !NoMore(s, x, k)
    ensures RefinedFrom(s, ci, x, k)
         == (if AfterValue(s, x, s.ss, k) && NoneOld(s, x, k)
             then [Decision(Stat(AcArea(s.comps[ci].acTbl), 3 * (k - 1)), 0)] else [])
            + RefinedRun(s, ci, x, k)
  {
    hide Value, RefinedSpelled, NoMore, AfterValue, NoneOld;
    var tbl := s.comps[ci].acTbl;
    var at := if Value(s, x, k) == 0 then [Decision(Stat(AcArea(tbl), 3 * (k - 1) + 1), 0)]
              else RefinedSpelled(tbl, k, Value(s, x, k));
    var ends := if AfterValue(s, x, s.ss, k) && NoneOld(s, x, k)
                then [Decision(Stat(AcArea(tbl), 3 * (k - 1)), 0)] else [];
    Regroup(ends, at, RefinedFrom(s, ci, x, k + 1));
  }

  lemma {:induction false} NothingRefined(s: Scan, ci: nat, x: Zigzag, k: nat)
    requires ValidScan(s) && ci < |s.comps| && 0 < s.ss < k <= s.se + 1
    requires NoMore(s, x, k) && Value(s, x, k - 1) == 0
    ensures RefinedFrom(s, ci, x, k) == []
    decreases s.se + 1 - k
  {
    hide Value, RefinedSpelled;
    if k <= s.se {
      NothingRefined(s, ci, x, k + 1);
    }
  }

  /** The last position sent before, and what was not. */
  ghost predicate IsKex(s: Scan, x: Zigzag, kex: nat)
    requires s.se < 64
  {
    forall k :: 0 < k <= s.se ==> (kex <= k - 1 <==> NoneOld(s, x, k))
  }

  lemma KexIs(s: Scan, x: Zigzag)
    requires s.se < 64
    ensures IsKex(s, x, LastNonzero(Points(x, s.al + 1), s.se))
  {
    var c := Points(x, s.al + 1);
    var kex := LastNonzero(c, s.se);
    forall j | 0 <= j < 64
      ensures c[j] == 0 <==> Abs(x[j]) / Pow2(s.al + 1) == 0
    {
      PointTransformed(x[j], s.al + 1);
    }
    hide Pow2, Points, LastNonzero;
  }

  lemma {:induction false} RefinedRestIs(s: Scan, ci: nat, x: Zigzag, kex: nat, k: nat, c: seq<int>)
    requires ValidScan(s) && ci < |s.comps| && 0 < s.ss <= k && Values(s, x, k, c) && IsKex(s, x, kex)
    requires c == [] || AfterValue(s, x, s.ss, k)
    ensures RefinedFrom(s, ci, x, k) == RefRest(s.comps[ci].acTbl, kex, k - 1, c)
    decreases |c|, 1
  {
    hide Value, RefinedSpelled, RefRun, NoMore, RefinedRun, NoneOld;
    if c != [] {
      QuietMeans(s, x, k, c);
      assert c[0] == Value(s, x, k);
      if Quiet(c) {
        NothingAfter(s, x, k);
        NothingRefined(s, ci, x, k + 1);
      } else {
        RefinedSplit(s, ci, x, k);
        RefinedRunIs(s, ci, x, kex, k, c);
      }
    }
  }

  lemma {:induction false} RefinedRunIs(s: Scan, ci: nat, x: Zigzag, kex: nat, k: nat, c: seq<int>)
    requires ValidScan(s) && ci < |s.comps| && 0 < s.ss <= k && Values(s, x, k, c) && IsKex(s, x, kex) && !Quiet(c)
    ensures RefinedRun(s, ci, x, k) == RefRun(s.comps[ci].acTbl, kex, k - 1, c)
    decreases |c|, 0
  {
    hide Value, RefinedSpelled, RefValue, IsKex, RefinedAt, NoMore, NoneOld;
    var tbl, d := s.comps[ci].acTbl, c[1..];
    assert c[0] == Value(s, x, k);
    assert Values(s, x, k + 1, d) by {
      assert forall i :: 0 <= i < |d| ==> d[i] == Value(s, x, k + 1 + i);
    }
    if c[0] == 0 {
      QuietMeans(s, x, k + 1, d);
      RefinedSplit(s, ci, x, k + 1);
      RefinedRunIs(s, ci, x, kex, k + 1, d);
    } else {
      RefValueIs(tbl, k, c[0]);
      RefinedRestIs(s, ci, x, kex, k + 1, d);
    }
  }

  // ------------------------------------------------------------ whole blocks

  lemma BandValues(s: Scan, x: Zigzag)
    requires ValidScan(s) && BandOf(s, x) != []
    ensures Values(s, x, if s.mode == Sequential then 1 else s.ss, BandOf(s, x))
  {
    var start, c := if s.mode == Sequential then 1 else s.ss, BandOf(s, x);
    forall i | 0 <= i < |c|
      ensures c[i] == Value(s, x, start + i)
    {
      PointTransformed(x[start + i], s.al);
    }
  }

  /** The decisions of a block, position by position. */
  function BlockSpelled(s: Scan, p: Pred, ci: nat, x: Zigzag): seq<Decision>
    requires ValidScan(s) && ValidPred(s, p) && ci < |s.comps|
  {
    var dc := DcSpelled(s.comps[ci].dcTbl, p.ctx[ci], x[0] / Pow2(s.al) - p.lastDc[ci]);
    match s.mode
    case Sequential => dc + FromPosition(s, ci, x, 1, 1)
    case DcFirst => dc
    case AcFirst => FromPosition(s, ci, x, s.ss, s.ss)
    case DcRefine => [Decision(Fixed, x[0] / Pow2(s.al) % 2)]
    case AcRefine => RefinedFrom(s, ci, x, s.ss)
  }

  lemma DcIs(s: Scan, p: Pred, ci: nat, x: Zigzag)
    requires ValidScan(s) && ValidPred(s, p) && ci < |s.comps|
    ensures DcOf(s, x) == x[0] / Pow2(s.al)
    ensures var tbl, diff := s.comps[ci].dcTbl, x[0] / Pow2(s.al) - p.lastDc[ci];
      && DcDecisions(s, p, ci, x) == DcSpelled(tbl, p.ctx[ci], diff)
      && AfterDc(s, p, ci, diff)
         == Pred(p.lastDc[ci := x[0] / Pow2(s.al)],
                 p.ctx[ci := ContextSpelled(diff, s.cond.dcL[tbl], s.cond.dcU[tbl])])
  {
    hide DcSpelled, DcDiff, ContextSpelled, DcContext, Pow2, ShiftDown;
    var tbl, diff := s.comps[ci].dcTbl, x[0] / Pow2(s.al) - p.lastDc[ci];
    ShiftDownQuotient(x[0], s.al);
    DcDiffIs(tbl, p.ctx[ci], diff);
    ContextIs(diff, s.cond.dcL[tbl], s.cond.dcU[tbl]);
  }

  lemma BandIs(s: Scan, ci: nat, x: Zigzag)
    requires ValidScan(s) && ci < |s.comps|
    ensures s.mode == Sequential ==> BandDecisions(s, ci, x) == FromPosition(s, ci, x, 1, 1)
    ensures s.mode == AcFirst ==> BandDecisions(s, ci, x) == FromPosition(s, ci, x, s.ss, s.ss)
  {
    hide Value, AtPosition, AcRest, FromPosition, BandOf;
    if BandOf(s, x) == [] {
      NoBand(s, ci, x);
    } else if s.mode == Sequential || s.mode == AcFirst {
      var start := if s.mode == Sequential then 1 else s.ss;
      BandValues(s, x);
      BandLies(s, x);
      RestIs(s, ci, x, start, start, BandOf(s, x));
    }
  }

  lemma BandLies(s: Scan, x: Zigzag)
    requires ValidScan(s) && BandOf(s, x) != []
    ensures s.mode == AcFirst || s.mode == AcRefine ==> 0 < s.ss
  {
  }

  lemma RefinementIs(s: Scan, ci: nat, x: Zigzag)
    requires ValidScan(s) && ci < |s.comps| && s.mode == AcRefine
    ensures 0 < s.ss && RefineDecisions(s, ci, x) == RefinedFrom(s, ci, x, s.ss)
  {
    hide Value, Values, RefinedAt, RefRest, RefinedFrom, BandOf, LastNonzero, Points, IsKex, NoneOld, NoMore;
    if BandOf(s, x) == [] {
      NoBand(s, ci, x);
    } else {
      BandValues(s, x);
      BandLies(s, x);
      KexIs(s, x);
      RefinedRestIs(s, ci, x, LastNonzero(Points(x, s.al + 1), s.se), s.ss, BandOf(s, x));
    }
  }

  /** Every decision of every block is in the bin of the source, and so it is with the context in
      which the next DC difference of the component is coded. */
  lemma BlockBinsAre(s: Scan, p: Pred, ci: nat, x: Zigzag)
    requires ValidScan(s) && ValidPred(s, p) && ci < |s.comps|
    ensures BlockDecisions(s, p, ci, x) == BlockSpelled(s, p, ci, x)
    ensures var tbl, diff := s.comps[ci].dcTbl, x[0] / Pow2(s.al) - p.lastDc[ci];
      AfterBlock(s, p, ci, x)
      == if s.mode == Sequential || s.mode == DcFirst
         then Pred(p.lastDc[ci := x[0] / Pow2(s.al)],
                   p.ctx[ci := ContextSpelled(diff, s.cond.dcL[tbl], s.cond.dcU[tbl])])
         else p
  {
    hide DcDecisions, DcSpelled, BandDecisions, RefineDecisions, FromPosition, RefinedFrom, ContextSpelled, AfterDc,
      DcOf, Pow2;
    DcIs(s, p, ci, x);
    BandIs(s, ci, x);
    if s.mode == AcRefine {
      RefinementIs(s, ci, x);
    }
  }

  lemma NoBand(s: Scan, ci: nat, x: Zigzag)
    requires ValidScan(s) && ci < |s.comps| && BandOf(s, x) == []
    ensures BandDecisions(s, ci, x) == []
    ensures s.mode == Sequential ==> FromPosition(s, ci, x, 1, 1) == []
    ensures s.mode != AcFirst && s.mode != AcRefine
  {
  }

  // ------------------------------------------------------------- whole segments

  /** The decisions of a segment, in which the differences are taken from the last DC values `last` and
      coded in the contexts `ctx`. */
  ghost function SegmentSpelled(s: Scan, last: seq<int>, ctx: seq<nat>, jobs: seq<Job>): seq<Decision>
    requires ValidScan(s) && ValidPred(s, Pred(last, ctx)) && ValidJobs(s, jobs)
    decreases |jobs|
  {
    if jobs == [] then []
    else
      var ci, x := jobs[0].ci, jobs[0].block;
      var dc := x[0] / Pow2(s.al);
      var own := BlockSpelled(s, Pred(last, ctx), ci, x);
      if s.mode == Sequential || s.mode == DcFirst then
        var tbl := s.comps[ci].dcTbl;
        var next := ContextSpelled(dc - last[ci], s.cond.dcL[tbl], s.cond.dcU[tbl]);
        ContextLegal(dc - last[ci], s.cond.dcL[tbl], s.cond.dcU[tbl]);
        own + SegmentSpelled(s, last[ci := dc], ctx[ci := next], jobs[1..])
      else own + SegmentSpelled(s, last, ctx, jobs[1..])
  }

  lemma ContextLegal(diff: int, lower: nat, upper: nat)
    ensures IsContext(ContextSpelled(diff, lower, upper))
  {
    ContextIs(diff, lower, upper);
  }

  lemma {:induction false} JobsAre(s: Scan, p: Pred, jobs: seq<Job>)
    requires ValidScan(s) && CoefPred(s, p) && ValidJobs(s, jobs)
    ensures JobDecisions(s, p, jobs) == SegmentSpelled(s, p.lastDc, p.ctx, jobs)
    decreases |jobs|
  {
    hide BlockDecisions, BlockSpelled, AfterBlock, ContextSpelled, Pow2;
    if jobs != [] {
      var ci, x := jobs[0].ci, jobs[0].block;
      BlockBins(s, p, ci, x);
      BlockBinsAre(s, p, ci, x);
      assert Pred(p.lastDc, p.ctx) == p;
      JobsAre(s, AfterBlock(s, p, ci, x), jobs[1..]);
    }
  }

  /** Every segment starts from the DC values 0 and the contexts 0. */
  lemma SegmentBinsAre(s: Scan, jobs: seq<Job>)
    requires ValidScan(s) && ValidJobs(s, jobs)
    ensures CoefPred(s, StartPred(s)) && ValidPred(s, Pred(seq(|s.comps|, i => 0), seq(|s.comps|, i => 0)))
    ensures JobDecisions(s, StartPred(s), jobs)
         == SegmentSpelled(s, seq(|s.comps|, i => 0), seq(|s.comps|, i => 0), jobs)
  {
    hide JobDecisions, SegmentSpelled;
    assert StartPred(s).lastDc == seq(|s.comps|, i => 0) && StartPred(s).ctx == seq(|s.comps|, i => 0);
    JobsAre(s, StartPred(s), jobs);
  }
}
