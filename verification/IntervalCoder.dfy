/** Binary arithmetic coding on exact intervals (T.81 sections D.1 and D.2): the
    simple form that the register-level encoder and decoder refine. */
module IntervalCoder {
  import opened Powers
  import opened Bytes
  import opened ProbabilityTable

  /** The half-open interval [low, low + width) in units of 2^-(16 + shift). */
  datatype Interval = Interval(low: nat, width: nat, shift: nat)

  const START := Interval(0, 0x1_0000, 0)

  predicate Normal(iv: Interval)
  {
    0x8000 <= iv.width <= 0x1_0000
  }

  /** The byte string `code`, read as a binary fraction, lies in the interval. */
  ghost predicate Contains(iv: Interval, code: seq<byte>)
  {
    AtLeast(code, iv.low, iv.shift) && !AtLeast(code, iv.low + iv.width, iv.shift)
  }

  /** The fraction `code` is at least `bound` units of 2^-(16 + shift). */
  predicate AtLeast(code: seq<byte>, bound: nat, shift: nat)
  {
    bound * Pow2(8 * |code|) <= Val(code) * Pow2(16 + shift)
  }

  lemma AtLeastMonotone(code: seq<byte>, b: nat, c: nat, shift: nat)
    requires b <= c && AtLeast(code, c, shift)
    ensures AtLeast(code, b, shift)
  {
    MulLe(b, c, Pow2(8 * |code|));
  }

  function Double(iv: Interval): Interval
  {
    Interval(2 * iv.low, 2 * iv.width, iv.shift + 1)
  }

  lemma DoubleSame(iv: Interval, code: seq<byte>)
    ensures Contains(Double(iv), code) <==> Contains(iv, code)
  {
    AtLeastDouble(code, iv.low, iv.shift);
    AtLeastDouble(code, iv.low + iv.width, iv.shift);
  }

  lemma AtLeastDouble(code: seq<byte>, bound: nat, shift: nat)
    ensures AtLeast(code, 2 * bound, shift + 1) <==> AtLeast(code, bound, shift)
  {
    assert Pow2(16 + (shift + 1)) == 2 * Pow2(16 + shift);
    MulShuffle(2, bound, Pow2(8 * |code|));
    MulShuffle(2, Val(code), Pow2(16 + shift));
  }

  function Renorm(iv: Interval): (r: Interval)
    requires 0 < iv.width <= 0x1_0000
    ensures Normal(r) && (Normal(iv) ==> r == iv)
    decreases 0x1_0000 - iv.width
  {
    if iv.width < 0x8000 then Renorm(Double(iv)) else iv
  }

  lemma {:induction false} RenormSame(iv: Interval, code: seq<byte>)
    requires 0 < iv.width <= 0x1_0000
    ensures Contains(Renorm(iv), code) <==> Contains(iv, code)
    decreases 0x1_0000 - iv.width
  {
    if iv.width < 0x8000 {
      RenormSame(Double(iv), code);
      DoubleSame(iv, code);
    }
  }

  // -------------------------------------------------------------- decisions

  /** A statistics area of one of the 16 DC or AC conditioning tables. */
  datatype Area = DcArea(tbl: nat) | AcArea(tbl: nat)

  /** A bin of an area, or the bin whose estimate stays at 0.5. */
  datatype Bin = Stat(area: Area, i: nat) | Fixed

  const NUM_ARITH_TBLS: nat := 16
  const DC_STAT_BINS: nat := 64
  const AC_STAT_BINS: nat := 256

  predicate Legal(b: Bin)
  {
    b.Stat? ==>
      && b.area.tbl < NUM_ARITH_TBLS
      && b.i < if b.area.DcArea? then DC_STAT_BINS else AC_STAT_BINS
  }

  type Stats = map<Bin, byte>

  ghost predicate ValidStats(stats: Stats)
  {
    forall b :: Legal(b) ==> b in stats && IsBin(stats[b])
  }

  lemma StatsUpdate(stats: Stats, b: Bin, v: byte)
    requires ValidStats(stats) && Legal(b) && IsBin(v)
    ensures b in stats && IsBin(stats[b]) && ValidStats(stats[b := v])
  {
  }

  /** MEMZERO of whole areas. */
  function ZeroAreas(stats: Stats, areas: set<Area>): Stats
  {
    map b | b in stats :: if b.Stat? && b.area in areas then 0 else stats[b]
  }

  lemma ZeroAreasValid(stats: Stats, areas: set<Area>)
    requires ValidStats(stats)
    ensures ValidStats(ZeroAreas(stats, areas))
  {
  }

  datatype Decision = Decision(bin: Bin, bit: nat)

  predicate LegalDecision(d: Decision)
  {
    Legal(d.bin) && d.bit < 2
  }

  ghost predicate LegalRun(ds: seq<Decision>)
  {
    forall i :: 0 <= i < |ds| ==> LegalDecision(ds[i])
  }

  /** The coding state both sides keep in step. */
  datatype Coder = Coder(iv: Interval, stats: Stats)

  ghost predicate ValidCoder(k: Coder)
  {
    Normal(k.iv) && ValidStats(k.stats)
  }

  /** The less probable symbol gets the upper `qe` units, unless what is left
      below would be smaller than that: then the two symbols are exchanged. */
  function TakesUpper(width: nat, qe: nat, isLps: bool): bool
    requires qe <= width
  {
    isLps <==> width - qe >= qe
  }

  function Narrow(iv: Interval, qe: nat, upper: bool): Interval
    requires qe <= iv.width
  {
    if upper then Interval(iv.low + (iv.width - qe), qe, iv.shift)
    else Interval(iv.low, iv.width - qe, iv.shift)
  }

  /** The estimate changes after every LPS, and after an MPS that shrinks the
      interval below its normal size. */
  function Adapt(sv: byte, below: nat, isLps: bool): (next: byte)
    requires IsBin(sv)
    ensures IsBin(next)
  {
    if isLps then AfterLps(sv) else if below < 0x8000 then AfterMps(sv) else sv
  }

  function Step(k: Coder, d: Decision): (r: Coder)
    requires ValidCoder(k) && LegalDecision(d)
    ensures ValidCoder(r)
  {
    var sv := k.stats[d.bin];
    var qe, isLps := Qe(sv), d.bit != Mps(sv);
    Coder(Renorm(Narrow(k.iv, qe, TakesUpper(k.iv.width, qe, isLps))),
          k.stats[d.bin := Adapt(sv, k.iv.width - qe, isLps)])
  }

  function Run(k: Coder, ds: seq<Decision>): (r: Coder)
    requires ValidCoder(k) && LegalRun(ds)
    ensures ValidCoder(r)
    decreases |ds|
  {
    if ds == [] then k else Run(Step(k, ds[0]), ds[1..])
  }

  lemma {:induction false} RunAppend(k: Coder, ds: seq<Decision>, es: seq<Decision>)
    requires ValidCoder(k) && LegalRun(ds) && LegalRun(es)
    ensures LegalRun(ds + es)
    ensures Run(k, ds + es) == Run(Run(k, ds), es)
    decreases |ds|
  {
    if ds == [] {
      assert ds + es == es;
    } else {
      assert (ds + es)[1..] == ds[1..] + es;
      RunAppend(Step(k, ds[0]), ds[1..], es);
    }
  }

  lemma RunSnoc(k: Coder, ds: seq<Decision>, d: Decision)
    requires ValidCoder(k) && LegalRun(ds) && LegalDecision(d)
    ensures LegalRun(ds + [d])
    ensures Run(k, ds + [d]) == Step(Run(k, ds), d)
  {
    RunAppend(k, ds, [d]);
  }

  /** The decoder's decision: which part of the interval the code lies in, and
      which symbol that part stands for. */
  ghost function DecodedBit(k: Coder, bin: Bin, code: seq<byte>): (bit: nat)
    requires ValidCoder(k) && Legal(bin)
    ensures bit < 2
  {
    var sv := k.stats[bin];
    var qe := Qe(sv);
    var upper := AtLeast(code, k.iv.low + (k.iv.width - qe), k.iv.shift);
    if TakesUpper(k.iv.width, qe, true) == upper then 1 - Mps(sv) else Mps(sv)
  }

  /** One decoding step. */
  ghost function Read(k: Coder, bin: Bin, code: seq<byte>): (r: (nat, Coder))
    requires ValidCoder(k) && Legal(bin)
    ensures r.0 < 2 && ValidCoder(r.1)
  {
    var bit := DecodedBit(k, bin, code);
    (bit, Step(k, Decision(bin, bit)))
  }

  /** The decision and its effect, by the part of the interval. */
  lemma DecideCases(k: Coder, bin: Bin, code: seq<byte>)
    requires ValidCoder(k) && Legal(bin)
    ensures var sv, bit := k.stats[bin], DecodedBit(k, bin, code);
      var below := k.iv.width - Qe(sv);
      var upper := AtLeast(code, k.iv.low + below, k.iv.shift);
      var isLps := upper == (below >= Qe(sv));
      && bit == (if isLps then 1 - Mps(sv) else Mps(sv))
      && Step(k, Decision(bin, bit))
         == Coder(Renorm(Narrow(k.iv, Qe(sv), upper)), k.stats[bin := Adapt(sv, below, isLps)])
  {
    hide RowAt, Renorm, AfterLps, AfterMps, AtLeast;
  }

  /** A code inside the interval reached by coding a decision was inside the
      interval before it, and makes the decoder take the same decision. */
  lemma DecisionRecovered(k: Coder, d: Decision, code: seq<byte>)
    requires ValidCoder(k) && LegalDecision(d)
    requires Contains(Step(k, d).iv, code)
    ensures Contains(k.iv, code) && DecodedBit(k, d.bin, code) == d.bit
  {
    hide RowAt, Renorm, AfterLps, AfterMps, AtLeast;
    var sv := k.stats[d.bin];
    var qe, isLps := Qe(sv), d.bit != Mps(sv);
    var upper := TakesUpper(k.iv.width, qe, isLps);
    var iv := Narrow(k.iv, qe, upper);
    RenormSame(iv, code);
    if upper {
      AtLeastMonotone(code, k.iv.low, iv.low, k.iv.shift);
    } else if AtLeast(code, k.iv.low + k.iv.width, k.iv.shift) {
      AtLeastMonotone(code, iv.low + iv.width, k.iv.low + k.iv.width, k.iv.shift);
    }
  }

  ghost predicate AllLegal(bins: seq<Bin>)
  {
    forall i :: 0 <= i < |bins| ==> Legal(bins[i])
  }

  /** Decoding a whole list of bins. */
  ghost function DecodeRun(k: Coder, bins: seq<Bin>, code: seq<byte>): (r: (seq<nat>, Coder))
    requires ValidCoder(k) && AllLegal(bins)
    ensures |r.0| == |bins|
    decreases |bins|
  {
    if bins == [] then ([], k)
    else
      var bit := DecodedBit(k, bins[0], code);
      var (bits, end) := DecodeRun(Step(k, Decision(bins[0], bit)), bins[1..], code);
      ([bit] + bits, end)
  }

  function Bins(ds: seq<Decision>): (bins: seq<Bin>)
    ensures |bins| == |ds|
    ensures forall i :: 0 <= i < |ds| ==> bins[i] == ds[i].bin
  {
    if ds == [] then [] else [ds[0].bin] + Bins(ds[1..])
  }

  function Bits(ds: seq<Decision>): (bits: seq<nat>)
    ensures |bits| == |ds|
    ensures forall i :: 0 <= i < |ds| ==> bits[i] == ds[i].bit
  {
    if ds == [] then [] else [ds[0].bit] + Bits(ds[1..])
  }

  lemma {:induction false} ContainsPrefix(k: Coder, ds: seq<Decision>, code: seq<byte>)
    requires ValidCoder(k) && LegalRun(ds) && Contains(Run(k, ds).iv, code)
    ensures Contains(k.iv, code)
    decreases |ds|
  {
    if ds != [] {
      ContainsPrefix(Step(k, ds[0]), ds[1..], code);
      DecisionRecovered(k, ds[0], code);
    }
  }

  /** Any code in the final interval of a run decodes to the run's bits and
      leaves the same statistics. */
  lemma {:induction false} RunRecovered(k: Coder, ds: seq<Decision>, code: seq<byte>)
    requires ValidCoder(k) && LegalRun(ds) && Contains(Run(k, ds).iv, code)
    ensures DecodeRun(k, Bins(ds), code) == (Bits(ds), Run(k, ds))
    decreases |ds|
  {
    if ds != [] {
      RunRecovered(Step(k, ds[0]), ds[1..], code);
      ContainsPrefix(Step(k, ds[0]), ds[1..], code);
      DecisionRecovered(k, ds[0], code);
      assert Bins(ds)[1..] == Bins(ds[1..]);
    }
  }

  // ------------------------------------------------------------ termination

  /** The number in the interval with the most trailing zero bits. */
  function Pick(iv: Interval): (y: nat)
    requires Normal(iv)
    ensures iv.low <= y < iv.low + iv.width && y % 0x8000 == 0
  {
    var q := (iv.low + iv.width - 1) / 0x1_0000;
    assert q * 0x1_0000 == 2 * q * 0x8000;
    if q * 0x1_0000 < iv.low then q * 0x1_0000 + 0x8000 else q * 0x1_0000
  }

  /** `code` is the terminating byte string for the interval: it denotes `Pick`
      and has no zero byte at the end. */
  ghost predicate IsCode(iv: Interval, code: seq<byte>)
    requires Normal(iv)
  {
    && Val(code) * Pow2(16 + iv.shift) == Pick(iv) * Pow2(8 * |code|)
    && (code != [] ==> code[|code| - 1] != 0)
  }

  lemma CodeInside(iv: Interval, code: seq<byte>)
    requires Normal(iv) && IsCode(iv, code)
    ensures Contains(iv, code)
  {
    MulLe(iv.low, Pick(iv), Pow2(8 * |code|));
    MulLt(Pick(iv), iv.low + iv.width, Pow2(8 * |code|));
  }

  /** The round trip of the simple form: the terminating code of a run decodes
      to the run's bits, from any statistics. */
  lemma CodeRoundTrip(stats: Stats, ds: seq<Decision>, code: seq<byte>)
    requires ValidStats(stats) && LegalRun(ds) && IsCode(Run(Coder(START, stats), ds).iv, code)
    ensures DecodeRun(Coder(START, stats), Bins(ds), code)
         == (Bits(ds), Run(Coder(START, stats), ds))
  {
    CodeInside(Run(Coder(START, stats), ds).iv, code);
    RunRecovered(Coder(START, stats), ds, code);
  }

  /** a * 2^m = b * 2^n with m <= n: b divides out. */
  lemma CancelPow2(a: nat, b: nat, m: nat, n: nat)
    requires m <= n && a * Pow2(m) == b * Pow2(n)
    ensures a == b * Pow2(n - m)
  {
    Pow2Add(n - m, m);
    MulShuffle(b, Pow2(n - m), Pow2(m));
    MulCompare(a, b * Pow2(n - m), Pow2(m));
  }

  lemma DivisiblePow2(x: nat, n: nat)
    requires 8 <= n
    ensures x * Pow2(n) % 256 == 0
  {
    Pow2Add(n - 8, 8);
    Pow2Small();
    MulShuffle(x, Pow2(n - 8), 256);
    assert x * Pow2(n) == (x * Pow2(n - 8)) * 256;
  }

  lemma LastDigit(s: seq<byte>)
    requires s != []
    ensures Val(s) % 256 == s[|s| - 1]
  {
  }

  /** The terminating code has no more digits than shift + 1 bits can fill. */
  lemma CodeLength(iv: Interval, code: seq<byte>)
    requires Normal(iv) && IsCode(iv, code)
    ensures 8 * |code| <= iv.shift + 8
  {
    var y, n := Pick(iv) / 0x8000, 8 * |code|;
    if iv.shift + 8 < n {
      hide Val, Pick;
      Pow2Add(15, n);
      Pow2Small();
      MulShuffle(y, 0x8000, Pow2(n));
      assert Val(code) * Pow2(16 + iv.shift) == y * Pow2(15 + n);
      CancelPow2(Val(code), y, 16 + iv.shift, 15 + n);
      DivisiblePow2(y, 15 + n - (16 + iv.shift));
      LastDigit(code);
    }
  }

  /** Two codes for the same interval are equal: the output is determined by
      the decisions alone. */
  lemma CodeUnique(iv: Interval, code: seq<byte>, other: seq<byte>)
    requires Normal(iv) && IsCode(iv, code) && IsCode(iv, other)
    ensures code == other
  {
    if |code| <= |other| {
      SameFraction(code, other, Pow2(16 + iv.shift), Pick(iv));
    } else {
      SameFraction(other, code, Pow2(16 + iv.shift), Pick(iv));
    }
  }

  lemma SameFraction(s: seq<byte>, t: seq<byte>, p: nat, y: nat)
    requires |s| <= |t| && 0 < p && (t != [] ==> t[|t| - 1] != 0)
    requires Val(s) * p == y * Pow2(8 * |s|) && Val(t) * p == y * Pow2(8 * |t|)
    ensures s == t
  {
    hide Val;
    var n := 8 * (|t| - |s|);
    assert Val(t) == Val(s) * Pow2(n) by {
      Pow2Add(8 * |s|, n);
      MulShuffle(y, Pow2(8 * |s|), Pow2(n));
      MulShuffle(Val(s), p, Pow2(n));
      MulCompare(Val(t), Val(s) * Pow2(n), p);
    }
    if |s| < |t| {
      DivisiblePow2(Val(s), n);
      LastDigit(t);
    } else {
      ValInjective(s, t);
    }
  }

  lemma {:induction false} ValInjective(s: seq<byte>, t: seq<byte>)
    requires |s| == |t| && Val(s) == Val(t)
    ensures s == t
  {
    if s != [] {
      ValInjective(s[..|s| - 1], t[..|t| - 1]);
      assert s == s[..|s| - 1] + [s[|s| - 1]] && t == t[..|t| - 1] + [t[|t| - 1]];
    }
  }

  /** No byte string inside the interval is shorter: termination is optimal. */
  lemma CodeShortest(iv: Interval, code: seq<byte>, other: seq<byte>)
    requires Normal(iv) && IsCode(iv, code) && Contains(iv, other)
    ensures |code| <= |other|
  {
    if |other| < |code| {
      CodeLength(iv, code);
      var m := 16 + iv.shift - 8 * |other|;
      var z := Val(other) * Pow2(m);
      assert iv.low <= z < iv.low + iv.width by {
        Pow2Add(m, 8 * |other|);
        MulShuffle(Val(other), Pow2(m), Pow2(8 * |other|));
        MulCompare(iv.low, z, Pow2(8 * |other|));
        MulCompare(iv.low + iv.width, z, Pow2(8 * |other|));
      }
      Pow2Add(m - 16, 16);
      Pow2Small();
      MulShuffle(Val(other), Pow2(m - 16), 0x1_0000);
      OnlyMultiple(iv, Val(other) * Pow2(m - 16));
      ShorterFraction(code, other, iv.shift);
    }
  }

  /** A multiple of 2^16 in the interval is the value `Pick` chooses. */
  lemma OnlyMultiple(iv: Interval, x: nat)
    requires Normal(iv) && iv.low <= x * 0x1_0000 < iv.low + iv.width
    ensures Pick(iv) == x * 0x1_0000
  {
    assert (iv.low + iv.width - 1) / 0x1_0000 == x;
  }

  lemma ShorterFraction(code: seq<byte>, other: seq<byte>, shift: nat)
    requires |other| < |code| && code[|code| - 1] != 0 && 8 * |other| <= 16 + shift
    ensures Val(code) * Pow2(16 + shift)
         != Val(other) * Pow2(16 + shift - 8 * |other|) * Pow2(8 * |code|)
  {
    hide Val;
    var m, n := 16 + shift - 8 * |other|, 8 * |code|;
    Pow2Add(m, n);
    MulShuffle(Val(other), Pow2(m), Pow2(n));
    if Val(code) * Pow2(16 + shift) == Val(other) * Pow2(m + n) {
      CancelPow2(Val(code), Val(other), 16 + shift, m + n);
      DivisiblePow2(Val(other), m + n - (16 + shift));
      LastDigit(code);
    }
  }
}
