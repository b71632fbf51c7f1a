/** How coefficients become binary decisions (T.81 sections F.1.4 and G.1.3) and
    how the decoder reads them back from any code. */
module ArithBinarization {
  import opened Powers
  import opened Bytes
  import opened Coefficients
  import opened IntervalCoder

  /** The code lies where coding `ds` leads from `k`. */
  ghost predicate Leads(k: Coder, ds: seq<Decision>, code: seq<byte>)
    requires ValidCoder(k)
  {
    LegalRun(ds) && Contains(Run(k, ds).iv, code)
  }

  lemma LeadsHead(k: Coder, d: Decision, ds: seq<Decision>, code: seq<byte>)
    requires ValidCoder(k) && Leads(k, [d] + ds, code)
    ensures LegalDecision(d) && LegalRun(ds)
    ensures Read(k, d.bin, code) == (d.bit, Step(k, d))
    ensures Leads(Step(k, d), ds, code) && Run(k, [d] + ds) == Run(Step(k, d), ds)
  {
    assert ([d] + ds)[0] == d && ([d] + ds)[1..] == ds;
    assert forall i :: 0 <= i < |ds| ==> ds[i] == ([d] + ds)[i + 1];
    ContainsPrefix(Step(k, d), ds, code);
    DecisionRecovered(k, d, code);
  }

  lemma LeadsSplit(k: Coder, ds: seq<Decision>, es: seq<Decision>, code: seq<byte>)
    requires ValidCoder(k) && Leads(k, ds + es, code)
    ensures Leads(k, ds, code) && LegalRun(es) && Leads(Run(k, ds), es, code)
    ensures Run(k, ds + es) == Run(Run(k, ds), es)
  {
    assert forall i :: 0 <= i < |ds| ==> ds[i] == (ds + es)[i];
    assert forall i :: 0 <= i < |es| ==> es[i] == (ds + es)[|ds| + i];
    RunAppend(k, ds, es);
    ContainsPrefix(Run(k, ds), es, code);
  }

  /** What a decoding routine gets from the code: a value, or the detection of
      an impossible value, and the coding state after it. */
  datatype Parse<T> = Got(value: T, next: Coder) | Bad(next: Coder)

  // -------------------------------------------------------------- magnitudes

  /** The indices a magnitude chain can touch stay inside its area. */
  predicate RoomFor(area: Area, base: nat)
  {
    area.tbl < NUM_ARITH_TBLS && base + 30 < if area.DcArea? then DC_STAT_BINS else AC_STAT_BINS
  }

  /** Magnitude category (Figure F.8): one decision for each halving of `v`,
      in bins that start at `base + i`. */
  function Chain(area: Area, base: nat, i: nat, v: nat): seq<Decision>
    decreases v
  {
    if v / 2 == 0 then [Decision(Stat(area, base + i), 0)]
    else [Decision(Stat(area, base + i), 1)] + Chain(area, base, i + 1, v / 2)
  }

  /** Magnitude bits (Figure F.9): the `j` low bits of `v`, high bit first. */
  function LowBits(bin: Bin, j: nat, v: nat): seq<Decision>
  {
    if j == 0 then [] else [Decision(bin, Shift(v, j - 1) % 2)] + LowBits(bin, j - 1, v)
  }

  ghost function ParseChain(k: Coder, area: Area, base: nat, i: nat, code: seq<byte>)
    : (r: Parse<nat>)
    requires ValidCoder(k) && RoomFor(area, base) && i < 15
    ensures ValidCoder(r.next) && (r.Got? ==> i <= r.value < 15)
    decreases 15 - i
  {
    var (bit, next) := Read(k, Stat(area, base + i), code);
    if bit == 0 then Got(i, next)
    else if i + 1 == 15 then Bad(next)
    else ParseChain(next, area, base, i + 1, code)
  }

  ghost function ParseLowBits(k: Coder, bin: Bin, j: nat, v: nat, code: seq<byte>)
    : (r: (nat, Coder))
    requires ValidCoder(k) && Legal(bin)
    ensures ValidCoder(r.1)
    decreases j
  {
    if j == 0 then (v, k)
    else
      var (bit, next) := Read(k, bin, code);
      ParseLowBits(next, bin, j - 1, if bit == 1 then v + Pow2(j - 1) else v, code)
  }

  /** A category of 15 or more is taken for a corrupt stream. */
  lemma {:induction false} ChainParsed(k: Coder, area: Area, base: nat, i: nat, v: nat, code: seq<byte>)
    requires ValidCoder(k) && RoomFor(area, base) && i < 15 && v > 0
    requires Leads(k, Chain(area, base, i, v), code)
    ensures i + Levels(v) < 15 ==>
              ParseChain(k, area, base, i, code)
              == Got(i + Levels(v), Run(k, Chain(area, base, i, v)))
    ensures 15 <= i + Levels(v) ==> ParseChain(k, area, base, i, code).Bad?
    decreases v
  {
    hide Step, DecodedBit, Contains;
    if v / 2 == 0 {
      assert Chain(area, base, i, v) == [Decision(Stat(area, base + i), 0)] + [];
      LeadsHead(k, Decision(Stat(area, base + i), 0), [], code);
    } else {
      LeadsHead(k, Decision(Stat(area, base + i), 1), Chain(area, base, i + 1, v / 2), code);
      if i + 1 < 15 {
        ChainParsed(Step(k, Decision(Stat(area, base + i), 1)), area, base, i + 1, v / 2, code);
      }
    }
  }

  lemma {:induction false} LowBitsParsed(k: Coder, bin: Bin, j: nat, v: nat, acc: nat, code: seq<byte>)
    requires ValidCoder(k) && Legal(bin) && Leads(k, LowBits(bin, j, v), code)
    ensures ParseLowBits(k, bin, j, acc, code)
         == (acc + Low(v, j), Run(k, LowBits(bin, j, v)))
    decreases j
  {
    hide Step, DecodedBit, Contains;
    if j != 0 {
      var bit := Shift(v, j - 1) % 2;
      LeadsHead(k, Decision(bin, bit), LowBits(bin, j - 1, v), code);
      LowBitsParsed(Step(k, Decision(bin, bit)), bin, j - 1, v,
                    if bit == 1 then acc + Pow2(j - 1) else acc, code);
    }
  }

  /** The rest of a magnitude `v` whose first `i` halvings are coded already: the
      category, then the bits, fourteen bins further on. */
  function Tail(area: Area, base: nat, i: nat, v: nat): seq<Decision>
    requires i <= 1 && Shift(v, i) > 0
  {
    LevelsHalved(i, v);
    var n := Levels(v);
    Chain(area, base, i, Shift(v, i)) + LowBits(Stat(area, base + n + 14), n, v)
  }

  ghost function ParseTail(k: Coder, area: Area, base: nat, i: nat, code: seq<byte>)
    : (r: Parse<nat>)
    requires ValidCoder(k) && RoomFor(area, base) && i < 15
    ensures ValidCoder(r.next)
  {
    var chain := ParseChain(k, area, base, i, code);
    if chain.Bad? then Bad(chain.next)
    else
      var n := chain.value;
      var (v, next) := ParseLowBits(chain.next, Stat(area, base + n + 14), n, Pow2(n), code);
      Got(v, next)
  }

  lemma LevelsHalved(i: nat, v: nat)
    requires i <= 1 && Shift(v, i) > 0
    ensures v > 0 && Levels(v) == i + Levels(Shift(v, i))
  {
    assert Shift(v, 0) == v && Shift(v, 1) == v / 2;
  }

  lemma TailParsed(k: Coder, area: Area, base: nat, i: nat, v: nat, code: seq<byte>)
    requires ValidCoder(k) && RoomFor(area, base) && i <= 1 && Shift(v, i) > 0
    requires Leads(k, Tail(area, base, i, v), code)
    ensures v < 0x8000 ==> ParseTail(k, area, base, i, code) == Got(v, Run(k, Tail(area, base, i, v)))
    ensures 0x8000 <= v ==> ParseTail(k, area, base, i, code).Bad?
  {
    hide Step, DecodedBit, Contains, Run, Leads, LegalRun, Pow2, Levels, Chain, LowBits, ParseChain,
      ParseLowBits;
    var chain, bits := Chain(area, base, i, Shift(v, i)), LowBits(Stat(area, base + Levels(v) + 14), Levels(v), v);
    LeadsSplit(k, chain, bits, code);
    ChainParsed(k, area, base, i, Shift(v, i), code);
    LevelsHalved(i, v);
    Fifteen(v);
    if v < 0x8000 {
      BitsParsed(Run(k, chain), Stat(area, base + Levels(v) + 14), v, code);
    }
  }

  lemma Fifteen(v: nat)
    requires v > 0
    ensures Levels(v) < 15 <==> v < 0x8000
  {
    Pow2Small();
    LevelsLimit(v, 15);
  }

  lemma BitsParsed(k: Coder, bin: Bin, v: nat, code: seq<byte>)
    requires ValidCoder(k) && Legal(bin) && v > 0 && Leads(k, LowBits(bin, Levels(v), v), code)
    ensures ParseLowBits(k, bin, Levels(v), Pow2(Levels(v)), code) == (v, Run(k, LowBits(bin, Levels(v), v)))
  {
    hide Step, DecodedBit, Contains, Run, Leads, LegalRun, Pow2, Levels, LowBits, ParseLowBits;
    LowBitsParsed(k, bin, Levels(v), v, Pow2(Levels(v)), code);
    LeadingOne(v);
  }

  lemma LeadingOne(v: nat)
    requires v > 0
    ensures Pow2(Levels(v)) + Low(v, Levels(v)) == v
  {
    LevelsBound(v);
    ShiftLow(v, Levels(v));
    OnceFits(v, Shift(v, Levels(v)), Pow2(Levels(v)), Low(v, Levels(v)));
  }

  lemma OnceFits(v: nat, s: nat, p: nat, l: nat)
    requires v == s * p + l && l < p <= v < 2 * p
    ensures s == 1
  {
    if s > 1 {
      MulLe(2, s, p);
    }
  }

  lemma RunNone(k: Coder)
    requires ValidCoder(k)
    ensures LegalRun([]) && Run(k, []) == k
  {
  }

  // -------------------------------------------------------- DC differences

  /** Magnitude less one of a DC difference, first bin `s`; X1 is at 20. */
  function DcMagnitude(tbl: nat, s: nat, v: nat): seq<Decision>
  {
    var area := DcArea(tbl);
    if v == 0 then [Decision(Stat(area, s), 0)]
    else [Decision(Stat(area, s), 1)] + Tail(area, 20, 0, v)
  }

  /** Encode_DC_DIFF (Figure F.4) in conditioning context `ctx`. */
  function DcDiff(tbl: nat, ctx: nat, diff: int): seq<Decision>
  {
    var area := DcArea(tbl);
    if diff == 0 then [Decision(Stat(area, ctx), 0)]
    else [Decision(Stat(area, ctx), 1)] + ([Decision(Stat(area, ctx + 1), SignBit(diff))]
         + DcMagnitude(tbl, ctx + 2 + SignBit(diff), Abs(diff) - 1))
  }

  ghost function ParseDcMagnitude(k: Coder, tbl: nat, s: nat, code: seq<byte>): (r: Parse<nat>)
    requires ValidCoder(k) && tbl < NUM_ARITH_TBLS && s < 20
    ensures ValidCoder(r.next)
  {
    var (bit, k1) := Read(k, Stat(DcArea(tbl), s), code);
    if bit == 0 then Got(0, k1) else ParseTail(k1, DcArea(tbl), 20, 0, code)
  }

  /** Sign and magnitude of a nonzero difference. */
  ghost function ParseDcValue(k: Coder, tbl: nat, ctx: nat, code: seq<byte>): (r: Parse<int>)
    requires ValidCoder(k) && tbl < NUM_ARITH_TBLS && ctx <= 16
    ensures ValidCoder(r.next)
  {
    var (sign, k1) := Read(k, Stat(DcArea(tbl), ctx + 1), code);
    var mag := ParseDcMagnitude(k1, tbl, ctx + 2 + sign, code);
    if mag.Bad? then Bad(mag.next)
    else Got(if sign == 1 then -(mag.value + 1) else mag.value + 1, mag.next)
  }

  ghost function ParseDcDiff(k: Coder, tbl: nat, ctx: nat, code: seq<byte>): (r: Parse<int>)
    requires ValidCoder(k) && tbl < NUM_ARITH_TBLS && ctx <= 16
    ensures ValidCoder(r.next)
  {
    var (bit, k1) := Read(k, Stat(DcArea(tbl), ctx), code);
    if bit == 0 then Got(0, k1) else ParseDcValue(k1, tbl, ctx, code)
  }

  lemma DcMagnitudeParsed(k: Coder, tbl: nat, s: nat, v: nat, code: seq<byte>)
    requires ValidCoder(k) && tbl < NUM_ARITH_TBLS && s < 20
    requires Leads(k, DcMagnitude(tbl, s, v), code)
    ensures v < 0x8000 ==> ParseDcMagnitude(k, tbl, s, code)
                           == Got(v, Run(k, DcMagnitude(tbl, s, v)))
    ensures 0x8000 <= v ==> ParseDcMagnitude(k, tbl, s, code).Bad?
  {
    hide Step, DecodedBit, Contains, Run, Leads, LegalRun, Tail, ParseTail, Read;
    var area := DcArea(tbl);
    if v == 0 {
      assert DcMagnitude(tbl, s, v) == [Decision(Stat(area, s), 0)] + [];
      LeadsHead(k, Decision(Stat(area, s), 0), [], code);
      RunNone(Step(k, Decision(Stat(area, s), 0)));
    } else {
      var d := Decision(Stat(area, s), 1);
      LeadsHead(k, d, Tail(area, 20, 0, v), code);
      TailParsed(Step(k, d), area, 20, 0, v, code);
    }
  }

  /** A DC difference is read back exactly when its magnitude is at most 2^15;
      a larger one is reported as a magnitude overflow. */
  lemma ZeroDiffParsed(k: Coder, tbl: nat, ctx: nat, code: seq<byte>)
    requires ValidCoder(k) && tbl < NUM_ARITH_TBLS && ctx <= 16
    requires Leads(k, DcDiff(tbl, ctx, 0), code)
    ensures ParseDcDiff(k, tbl, ctx, code) == Got(0, Run(k, DcDiff(tbl, ctx, 0)))
  {
    hide Step, DecodedBit, Contains, Run, Leads, LegalRun, Read;
    var d := Decision(Stat(DcArea(tbl), ctx), 0);
    assert DcDiff(tbl, ctx, 0) == [d] + [];
    LeadsHead(k, d, [], code);
    RunNone(Step(k, d));
  }

  lemma DcValueParsed(k: Coder, tbl: nat, ctx: nat, diff: int, code: seq<byte>)
    requires ValidCoder(k) && tbl < NUM_ARITH_TBLS && ctx <= 16 && diff != 0
    requires Leads(k, [Decision(Stat(DcArea(tbl), ctx + 1), SignBit(diff))]
                      + DcMagnitude(tbl, ctx + 2 + SignBit(diff), Abs(diff) - 1), code)
    ensures var ds := [Decision(Stat(DcArea(tbl), ctx + 1), SignBit(diff))]
                      + DcMagnitude(tbl, ctx + 2 + SignBit(diff), Abs(diff) - 1);
      if Abs(diff) <= 0x8000 then ParseDcValue(k, tbl, ctx, code) == Got(diff, Run(k, ds))
      else ParseDcValue(k, tbl, ctx, code).Bad?
  {
    hide Step, DecodedBit, Contains, Run, Leads, LegalRun, DcMagnitude, ParseDcMagnitude, Read;
    var e := Decision(Stat(DcArea(tbl), ctx + 1), SignBit(diff));
    LeadsHead(k, e, DcMagnitude(tbl, ctx + 2 + SignBit(diff), Abs(diff) - 1), code);
    DcMagnitudeParsed(Step(k, e), tbl, ctx + 2 + SignBit(diff), Abs(diff) - 1, code);
  }

  lemma DcDiffParsed(k: Coder, tbl: nat, ctx: nat, diff: int, code: seq<byte>)
    requires ValidCoder(k) && tbl < NUM_ARITH_TBLS && ctx <= 16
    requires Leads(k, DcDiff(tbl, ctx, diff), code)
    ensures ParseDcDiff(k, tbl, ctx, code).Got? <==> Abs(diff) <= 0x8000
    ensures Abs(diff) <= 0x8000 ==> ParseDcDiff(k, tbl, ctx, code)
                                    == Got(diff, Run(k, DcDiff(tbl, ctx, diff)))
  {
    hide Step, DecodedBit, Contains, Run, Leads, LegalRun, DcMagnitude, ParseDcMagnitude, ParseDcValue, Read;
    if diff == 0 {
      ZeroDiffParsed(k, tbl, ctx, code);
    } else {
      var d, e := Decision(Stat(DcArea(tbl), ctx), 1), Decision(Stat(DcArea(tbl), ctx + 1), SignBit(diff));
      var rest := [e] + DcMagnitude(tbl, ctx + 2 + SignBit(diff), Abs(diff) - 1);
      assert DcDiff(tbl, ctx, diff) == [d] + rest;
      LeadsHead(k, d, rest, code);
      DcValueParsed(Step(k, d), tbl, ctx, diff, code);
    }
  }

  // -------------------------------------------------------- AC coefficients

  /** Base of the AC magnitude chain: below or above the conditioning value Kx. */
  function AcBase(kx: nat, pos: nat): nat
  {
    if pos <= kx then 188 else 216
  }

  /** Magnitude less one of an AC coefficient at zigzag position `pos`. */
  function AcMagnitude(tbl: nat, kx: nat, pos: nat, v: nat): seq<Decision>
    requires pos > 0
  {
    var bin := Stat(AcArea(tbl), 3 * (pos - 1) + 2);
    assert Shift(v, 1) == v / 2;
    if v == 0 then [Decision(bin, 0)]
    else [Decision(bin, 1)] + (if v / 2 == 0 then [Decision(bin, 0)]
         else [Decision(bin, 1)] + Tail(AcArea(tbl), AcBase(kx, pos), 1, v))
  }

  ghost function ParseAcMagnitude(k: Coder, tbl: nat, kx: nat, pos: nat, code: seq<byte>)
    : (r: Parse<nat>)
    requires ValidCoder(k) && tbl < NUM_ARITH_TBLS && 0 < pos < 64
    ensures ValidCoder(r.next)
  {
    var bin := Stat(AcArea(tbl), 3 * (pos - 1) + 2);
    var (bit, k1) := Read(k, bin, code);
    if bit == 0 then Got(0, k1)
    else
      var (more, k2) := Read(k1, bin, code);
      if more == 0 then Got(1, k2)
      else ParseTail(k2, AcArea(tbl), AcBase(kx, pos), 1, code)
  }

  lemma AcMagnitudeParsed(k: Coder, tbl: nat, kx: nat, pos: nat, v: nat, code: seq<byte>)
    requires ValidCoder(k) && tbl < NUM_ARITH_TBLS && 0 < pos < 64 && v < 0x8000
    requires Leads(k, AcMagnitude(tbl, kx, pos, v), code)
    ensures ParseAcMagnitude(k, tbl, kx, pos, code) == Got(v, Run(k, AcMagnitude(tbl, kx, pos, v)))
  {
    hide Step, DecodedBit, Contains, Run, Leads, LegalRun, Tail, ParseTail, Read;
    var bin := Stat(AcArea(tbl), 3 * (pos - 1) + 2);
    var no, yes := Decision(bin, 0), Decision(bin, 1);
    assert [no] == [no] + [];
    if v == 0 {
      LeadsHead(k, no, [], code);
      RunNone(Step(k, no));
    } else if v / 2 == 0 {
      LeadsHead(k, yes, [no], code);
      LeadsHead(Step(k, yes), no, [], code);
      RunNone(Step(Step(k, yes), no));
    } else {
      assert Shift(v, 1) == v / 2;
      var tail := Tail(AcArea(tbl), AcBase(kx, pos), 1, v);
      LeadsHead(k, yes, [yes] + tail, code);
      LeadsHead(Step(k, yes), yes, tail, code);
      TailParsed(Step(Step(k, yes), yes), AcArea(tbl), AcBase(kx, pos), 1, v, code);
    }
  }

  /** A nonzero coefficient at `pos`, after the decision that it is nonzero. */
  function AcValue(tbl: nat, kx: nat, pos: nat, v: int): seq<Decision>
    requires pos > 0 && v != 0
  {
    [Decision(Fixed, SignBit(v))] + AcMagnitude(tbl, kx, pos, Abs(v) - 1)
  }

  ghost function ParseAcValue(k: Coder, tbl: nat, kx: nat, pos: nat, code: seq<byte>): (r: Parse<int>)
    requires ValidCoder(k) && tbl < NUM_ARITH_TBLS && 0 < pos < 64
    ensures ValidCoder(r.next)
  {
    var (sign, k1) := Read(k, Fixed, code);
    var mag := ParseAcMagnitude(k1, tbl, kx, pos, code);
    if mag.Bad? then Bad(mag.next)
    else Got(if sign == 1 then -(mag.value + 1) else mag.value + 1, mag.next)
  }

  lemma AcValueParsed(k: Coder, tbl: nat, kx: nat, pos: nat, v: int, code: seq<byte>)
    requires ValidCoder(k) && tbl < NUM_ARITH_TBLS && 0 < pos < 64 && 0 < Abs(v) <= 0x8000
    requires Leads(k, AcValue(tbl, kx, pos, v), code)
    ensures ParseAcValue(k, tbl, kx, pos, code) == Got(v, Run(k, AcValue(tbl, kx, pos, v)))
  {
    hide Step, DecodedBit, Contains, Run, Leads, LegalRun, AcMagnitude, ParseAcMagnitude, Read;
    var d, mag := Decision(Fixed, SignBit(v)), AcMagnitude(tbl, kx, pos, Abs(v) - 1);
    LeadsHead(k, d, mag, code);
    AcMagnitudeParsed(Step(k, d), tbl, kx, pos, Abs(v) - 1, code);
  }

  // --------------------------------------------------------------- AC bands

  /** The coefficients `c` of a band that follow zigzag position `pos`
      (Figure F.5): the end-of-band decision, then the run to the next nonzero
      coefficient. */
  function AcRest(tbl: nat, kx: nat, pos: nat, c: seq<int>): seq<Decision>
    decreases |c|, 1
  {
    var bin := Stat(AcArea(tbl), 3 * pos);
    if c == [] then []
    else if Quiet(c) then [Decision(bin, 1)]
    else [Decision(bin, 0)] + AcRun(tbl, kx, pos, c)
  }

  function AcRun(tbl: nat, kx: nat, pos: nat, c: seq<int>): seq<Decision>
    requires !Quiet(c)
    decreases |c|, 0
  {
    var bin := Stat(AcArea(tbl), 3 * pos + 1);
    if c[0] == 0 then [Decision(bin, 0)] + AcRun(tbl, kx, pos + 1, c[1..])
    else [Decision(bin, 1)] + (AcValue(tbl, kx, pos + 1, c[0]) + AcRest(tbl, kx, pos + 1, c[1..]))
  }

  function Prepend(v: int, r: Parse<seq<int>>): (p: Parse<seq<int>>)
    ensures p.next == r.next && p.Got? == r.Got?
    ensures r.Got? ==> p.value == [v] + r.value
  {
    if r.Got? then Got([v] + r.value, r.next) else r
  }

  /** Decode_AC_coefficients (Figure F.20): the `n` coefficients after `pos`. */
  ghost function ParseAcRest(k: Coder, tbl: nat, kx: nat, pos: nat, n: nat, code: seq<byte>)
    : (r: Parse<seq<int>>)
    requires ValidCoder(k) && tbl < NUM_ARITH_TBLS && pos + n < 64
    ensures ValidCoder(r.next) && (r.Got? ==> |r.value| == n)
    decreases n, 1
  {
    if n == 0 then Got([], k)
    else
      var (bit, k1) := Read(k, Stat(AcArea(tbl), 3 * pos), code);
      if bit == 1 then Got(Zeros(n), k1) else ParseAcRun(k1, tbl, kx, pos, n, code)
  }

  ghost function ParseAcRun(k: Coder, tbl: nat, kx: nat, pos: nat, n: nat, code: seq<byte>)
    : (r: Parse<seq<int>>)
    requires ValidCoder(k) && tbl < NUM_ARITH_TBLS && 0 < n && pos + n < 64
    ensures ValidCoder(r.next) && (r.Got? ==> |r.value| == n)
    decreases n, 0
  {
    var (bit, k1) := Read(k, Stat(AcArea(tbl), 3 * pos + 1), code);
    if bit == 1 then ParseAcFound(k1, tbl, kx, pos, n, code)
    else if n == 1 then Bad(k1)
    else Prepend(0, ParseAcRun(k1, tbl, kx, pos + 1, n - 1, code))
  }

  /** The first of the `n` coefficients is nonzero. */
  ghost function ParseAcFound(k: Coder, tbl: nat, kx: nat, pos: nat, n: nat, code: seq<byte>)
    : (r: Parse<seq<int>>)
    requires ValidCoder(k) && tbl < NUM_ARITH_TBLS && 0 < n && pos + n < 64
    ensures ValidCoder(r.next) && (r.Got? ==> |r.value| == n)
    decreases n - 1, 2
  {
    var value := ParseAcValue(k, tbl, kx, pos + 1, code);
    if value.Bad? then Bad(value.next)
    else Prepend(value.value, ParseAcRest(value.next, tbl, kx, pos + 1, n - 1, code))
  }

  /** Magnitudes the code can carry; every JCOEF qualifies. */
  ghost predicate Codable(c: seq<int>)
  {
    forall j :: 0 <= j < |c| ==> Abs(c[j]) <= 0x8000
  }

  lemma {:induction false} AcRestParsed(k: Coder, tbl: nat, kx: nat, pos: nat, c: seq<int>,
                                        code: seq<byte>)
    requires ValidCoder(k) && tbl < NUM_ARITH_TBLS && pos + |c| < 64 && Codable(c)
    requires Leads(k, AcRest(tbl, kx, pos, c), code)
    ensures ParseAcRest(k, tbl, kx, pos, |c|, code) == Got(c, Run(k, AcRest(tbl, kx, pos, c)))
    decreases |c|, 1
  {
    hide Step, DecodedBit, Contains, Run, Leads, LegalRun, Read, AcRun, ParseAcRun, Codable;
    var bin := Stat(AcArea(tbl), 3 * pos);
    if c == [] {
      RunNone(k);
    } else if Quiet(c) {
      assert [Decision(bin, 1)] == [Decision(bin, 1)] + [];
      LeadsHead(k, Decision(bin, 1), [], code);
      RunNone(Step(k, Decision(bin, 1)));
      QuietIsZeros(c);
    } else {
      LeadsHead(k, Decision(bin, 0), AcRun(tbl, kx, pos, c), code);
      AcRunParsed(Step(k, Decision(bin, 0)), tbl, kx, pos, c, code);
    }
  }

  lemma {:induction false} AcRunParsed(k: Coder, tbl: nat, kx: nat, pos: nat, c: seq<int>,
                                       code: seq<byte>)
    requires ValidCoder(k) && tbl < NUM_ARITH_TBLS && pos + |c| < 64 && Codable(c) && !Quiet(c)
    requires Leads(k, AcRun(tbl, kx, pos, c), code)
    ensures ParseAcRun(k, tbl, kx, pos, |c|, code) == Got(c, Run(k, AcRun(tbl, kx, pos, c)))
    decreases |c|, 0
  {
    hide Step, DecodedBit, Contains, Run, Leads, LegalRun, Read, AcRest, ParseAcRest, ParseAcValue;
    if c[0] == 0 {
      var d := Decision(Stat(AcArea(tbl), 3 * pos + 1), 0);
      assert c == [0] + c[1..];
      LeadsHead(k, d, AcRun(tbl, kx, pos + 1, c[1..]), code);
      AcRunParsed(Step(k, d), tbl, kx, pos + 1, c[1..], code);
    } else {
      AcFoundParsed(k, tbl, kx, pos, c, code);
    }
  }

  /** The run has reached a nonzero coefficient. */
  lemma {:induction false} AcFoundParsed(k: Coder, tbl: nat, kx: nat, pos: nat, c: seq<int>,
                                         code: seq<byte>)
    requires ValidCoder(k) && tbl < NUM_ARITH_TBLS && pos + |c| < 64 && Codable(c)
    requires c != [] && c[0] != 0 && Leads(k, AcRun(tbl, kx, pos, c), code)
    ensures ParseAcRun(k, tbl, kx, pos, |c|, code) == Got(c, Run(k, AcRun(tbl, kx, pos, c)))
    decreases |c| - 1, 2
  {
    hide Step, DecodedBit, Contains, Run, Leads, LegalRun, Read, AcValue, ParseAcValue, AcRest,
      ParseAcRest;
    var d := Decision(Stat(AcArea(tbl), 3 * pos + 1), 1);
    var value, rest := AcValue(tbl, kx, pos + 1, c[0]), AcRest(tbl, kx, pos + 1, c[1..]);
    LeadsHead(k, d, value + rest, code);
    LeadsSplit(Step(k, d), value, rest, code);
    AcValueParsed(Step(k, d), tbl, kx, pos + 1, c[0], code);
    AcRestParsed(Run(Step(k, d), value), tbl, kx, pos + 1, c[1..], code);
    assert c == [c[0]] + c[1..];
  }

  // ---------------------------------------------------- AC band refinement

  /** Encode_AC_Coefficients_SA (Figure G.10): the end-of-band decision is only
      made after the previous stage's last nonzero position `kex`. */
  function RefRest(tbl: nat, kex: nat, pos: nat, t: seq<int>): seq<Decision>
    decreases |t|, 1
  {
    var bin := Stat(AcArea(tbl), 3 * pos);
    if t == [] then []
    else if Quiet(t) then [Decision(bin, 1)]
    else (if kex <= pos then [Decision(bin, 0)] else []) + RefRun(tbl, kex, pos, t)
  }

  function RefRun(tbl: nat, kex: nat, pos: nat, t: seq<int>): seq<Decision>
    requires !Quiet(t)
    decreases |t|, 0
  {
    var v, area := t[0], AcArea(tbl);
    if v == 0 then [Decision(Stat(area, 3 * pos + 1), 0)] + RefRun(tbl, kex, pos + 1, t[1..])
    else RefValue(tbl, pos, v) + RefRest(tbl, kex, pos + 1, t[1..])
  }

  /** A correction bit, or a newly nonzero coefficient and its sign. */
  function RefValue(tbl: nat, pos: nat, v: int): seq<Decision>
    requires v != 0
  {
    var area := AcArea(tbl);
    if Abs(v) / 2 != 0 then [Decision(Stat(area, 3 * pos + 2), Abs(v) % 2)]
    else [Decision(Stat(area, 3 * pos + 1), 1)] + [Decision(Fixed, SignBit(v))]
  }

  /** Add a correction bit to a nonzero coefficient, away from zero. */
  function Corrected(x: int, bit: nat, p1: nat): int
  {
    if bit == 0 then x else ToCoef(if x < 0 then x - p1 else x + p1)
  }

  /** The refined values of the block positions `b` that follow `pos`. */
  ghost function ParseRefRest(k: Coder, tbl: nat, kex: nat, pos: nat, b: seq<int>, p1: nat,
                              code: seq<byte>): (r: Parse<seq<int>>)
    requires ValidCoder(k) && tbl < NUM_ARITH_TBLS && pos + |b| < 64
    ensures ValidCoder(r.next) && (r.Got? ==> |r.value| == |b|)
    decreases |b|, 1
  {
    if b == [] then Got([], k)
    else if kex <= pos then
      var (bit, k1) := Read(k, Stat(AcArea(tbl), 3 * pos), code);
      if bit == 1 then Got(b, k1) else ParseRefRun(k1, tbl, kex, pos, b, p1, code)
    else ParseRefRun(k, tbl, kex, pos, b, p1, code)
  }

  ghost function ParseRefRun(k: Coder, tbl: nat, kex: nat, pos: nat, b: seq<int>, p1: nat,
                             code: seq<byte>): (r: Parse<seq<int>>)
    requires ValidCoder(k) && tbl < NUM_ARITH_TBLS && b != [] && pos + |b| < 64
    ensures ValidCoder(r.next) && (r.Got? ==> |r.value| == |b|)
    decreases |b|, 0
  {
    var area, x := AcArea(tbl), b[0];
    if x != 0 then
      var (bit, k1) := Read(k, Stat(area, 3 * pos + 2), code);
      Prepend(Corrected(x, bit, p1), ParseRefRest(k1, tbl, kex, pos + 1, b[1..], p1, code))
    else
      var (bit, k1) := Read(k, Stat(area, 3 * pos + 1), code);
      if bit == 1 then
        var (sign, k2) := Read(k1, Fixed, code);
        Prepend(ToCoef(Signed(sign, p1)), ParseRefRest(k2, tbl, kex, pos + 1, b[1..], p1, code))
      else if |b| == 1 then Bad(k1)
      else Prepend(0, ParseRefRun(k1, tbl, kex, pos + 1, b[1..], p1, code))
  }

  /** Value of a point-transformed coefficient in the block. */
  function Scaled(v: int, p1: nat): int
  {
    v * p1
  }

  /** `x` is what the block holds, one stage before it holds `v` scaled by p1. */
  predicate OneStageBefore(x: int, v: int, p1: nat)
  {
    x == Scaled(2 * Point(v, 1), p1)
  }

  ghost predicate StageBefore(b: seq<int>, t: seq<int>, p1: nat)
  {
    |b| == |t| && forall j :: 0 <= j < |t| ==>
                    OneStageBefore(b[j], t[j], p1) && -0x8000 <= Scaled(t[j], p1) < 0x8000
  }

  function ScaledAll(t: seq<int>, p1: nat): (b: seq<int>)
    ensures |b| == |t|
    ensures forall j :: 0 <= j < |t| ==> b[j] == Scaled(t[j], p1)
  {
    if t == [] then [] else [Scaled(t[0], p1)] + ScaledAll(t[1..], p1)
  }

  /** What a stage adds to a coefficient: nothing, a correction or a new value. */
  lemma RefineOne(x: int, v: int, p1: nat)
    requires 0 < p1 && OneStageBefore(x, v, p1) && -0x8000 <= Scaled(v, p1) < 0x8000
    ensures x != 0 <==> Abs(v) / 2 != 0
    ensures Abs(v) / 2 != 0 ==> Scaled(v, p1) == Corrected(x, Abs(v) % 2, p1)
    ensures v != 0 && Abs(v) / 2 == 0 ==> Scaled(v, p1) == ToCoef(Signed(SignBit(v), p1))
    ensures v == 0 ==> Scaled(v, p1) == 0
  {
    var h := Point(v, 1);
    assert Shift(Abs(v), 1) == Abs(v) / 2;
    if v >= 0 {
      assert v == 2 * h + v % 2 && h >= 0;
      AddProduct(2 * h, v % 2, p1);
    } else {
      assert v == 2 * h - (-v) % 2 && h <= 0;
      AddProduct(2 * h, -((-v) % 2), p1);
    }
    if h > 0 {
      MulLt(0, 2 * h, p1);
    } else if h < 0 {
      MulLt(2 * h, 0, p1);
    }
  }

  lemma QuietBefore(b: seq<int>, t: seq<int>, p1: nat)
    requires Quiet(t) && StageBefore(b, t, p1)
    ensures ScaledAll(t, p1) == b
  {
    QuietIsZeros(t);
    ZerosAt(|t|);
    assert Shift(0, 1) == 0;
    assert forall j :: 0 <= j < |t| ==> b[j] == 0;
  }

  /** The two end-of-band indexes act alike from `pos` on. */
  predicate SameFrom(kex: nat, kexd: nat, pos: nat)
  {
    kex == kexd || (kex <= pos && kexd <= pos)
  }

  /** After the last nonzero coefficient of this stage there is none of the
      previous stage either, so the end-of-band decision is always made. */
  ghost predicate NoneBeyond(t: seq<int>, pos: nat, kex: nat)
  {
    forall j :: 0 <= j <= |t| && Quiet(t[j..]) ==> kex <= pos + j
  }

  lemma {:induction false} RefRestParsed(k: Coder, tbl: nat, kex: nat, kexd: nat, pos: nat,
                                         b: seq<int>, t: seq<int>, p1: nat, code: seq<byte>)
    requires ValidCoder(k) && tbl < NUM_ARITH_TBLS && pos + |b| < 64 && 0 < p1
    requires StageBefore(b, t, p1) && SameFrom(kex, kexd, pos) && NoneBeyond(t, pos, kexd)
    requires Leads(k, RefRest(tbl, kex, pos, t), code)
    ensures ParseRefRest(k, tbl, kexd, pos, b, p1, code)
         == Got(ScaledAll(t, p1), Run(k, RefRest(tbl, kex, pos, t)))
    decreases |t|, 1
  {
    hide Step, DecodedBit, Contains, Run, Leads, LegalRun, Read, RefRun, ParseRefRun;
    if Quiet(t) {
      RefQuietParsed(k, tbl, kex, kexd, pos, b, t, p1, code);
    } else if kex <= pos {
      var d := Decision(Stat(AcArea(tbl), 3 * pos), 0);
      LeadsHead(k, d, RefRun(tbl, kex, pos, t), code);
      RefRunParsed(Step(k, d), tbl, kex, kexd, pos, b, t, p1, code);
    } else {
      assert [] + RefRun(tbl, kex, pos, t) == RefRun(tbl, kex, pos, t);
      RefRunParsed(k, tbl, kex, kexd, pos, b, t, p1, code);
    }
  }

  /** Only zeros are left at this stage. */
  lemma RefQuietParsed(k: Coder, tbl: nat, kex: nat, kexd: nat, pos: nat, b: seq<int>, t: seq<int>,
                       p1: nat, code: seq<byte>)
    requires ValidCoder(k) && tbl < NUM_ARITH_TBLS && pos + |b| < 64 && Quiet(t)
    requires StageBefore(b, t, p1) && NoneBeyond(t, pos, kexd)
    requires Leads(k, RefRest(tbl, kex, pos, t), code)
    ensures ParseRefRest(k, tbl, kexd, pos, b, p1, code)
         == Got(ScaledAll(t, p1), Run(k, RefRest(tbl, kex, pos, t)))
  {
    assert kexd <= pos by { assert t[0..] == t; }
    QuietBefore(b, t, p1);
    hide Step, DecodedBit, Contains, Run, Leads, LegalRun, Read, ParseRefRun, NoneBeyond;
    if t == [] {
      RunNone(k);
    } else {
      var d := Decision(Stat(AcArea(tbl), 3 * pos), 1);
      assert [d] == [d] + [];
      LeadsHead(k, d, [], code);
      RunNone(Step(k, d));
    }
  }

  lemma {:induction false} RefRunParsed(k: Coder, tbl: nat, kex: nat, kexd: nat, pos: nat,
                                        b: seq<int>, t: seq<int>, p1: nat, code: seq<byte>)
    requires ValidCoder(k) && tbl < NUM_ARITH_TBLS && pos + |b| < 64 && 0 < p1 && !Quiet(t)
    requires StageBefore(b, t, p1) && SameFrom(kex, kexd, pos) && NoneBeyond(t, pos, kexd)
    requires Leads(k, RefRun(tbl, kex, pos, t), code)
    ensures ParseRefRun(k, tbl, kexd, pos, b, p1, code)
         == Got(ScaledAll(t, p1), Run(k, RefRun(tbl, kex, pos, t)))
    decreases |t|, 0
  {
    hide Step, DecodedBit, Contains, Run, Leads, LegalRun, Read, RefRest, ParseRefRest;
    if t[0] == 0 {
      RefineOne(b[0], t[0], p1);
      var d := Decision(Stat(AcArea(tbl), 3 * pos + 1), 0);
      LeadsHead(k, d, RefRun(tbl, kex, pos + 1, t[1..]), code);
      RefRunParsed(Step(k, d), tbl, kex, kexd, pos + 1, b[1..], t[1..], p1, code);
    } else {
      RefFoundParsed(k, tbl, kex, kexd, pos, b, t, p1, code);
    }
  }

  /** The run has reached a coefficient that is nonzero at this stage. */
  lemma {:induction false} RefFoundParsed(k: Coder, tbl: nat, kex: nat, kexd: nat, pos: nat,
                                          b: seq<int>, t: seq<int>, p1: nat, code: seq<byte>)
    requires ValidCoder(k) && tbl < NUM_ARITH_TBLS && pos + |b| < 64 && 0 < p1
    requires StageBefore(b, t, p1) && SameFrom(kex, kexd, pos) && NoneBeyond(t, pos, kexd)
    requires t != [] && t[0] != 0 && Leads(k, RefRun(tbl, kex, pos, t), code)
    ensures ParseRefRun(k, tbl, kexd, pos, b, p1, code)
         == Got(ScaledAll(t, p1), Run(k, RefRun(tbl, kex, pos, t)))
    decreases |t| - 1, 2
  {
    hide Step, DecodedBit, Contains, Run, Leads, LegalRun, Read, RefRest, ParseRefRest, Point, ToCoef,
      Corrected;
    RefineOne(b[0], t[0], p1);
    var v, area, rest := t[0], AcArea(tbl), RefRest(tbl, kex, pos + 1, t[1..]);
    var k1: Coder;
    if Abs(v) / 2 != 0 {
      var d := Decision(Stat(area, 3 * pos + 2), Abs(v) % 2);
      LeadsHead(k, d, rest, code);
      k1 := Step(k, d);
    } else {
      var d, e := Decision(Stat(area, 3 * pos + 1), 1), Decision(Fixed, SignBit(v));
      assert RefRun(tbl, kex, pos, t) == [d] + ([e] + rest);
      LeadsHead(k, d, [e] + rest, code);
      LeadsHead(Step(k, d), e, rest, code);
      k1 := Step(Step(k, d), e);
    }
    RefRestParsed(k1, tbl, kex, kexd, pos + 1, b[1..], t[1..], p1, code);
  }
}
