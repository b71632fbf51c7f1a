/** The MCU decoding routines of the arithmetic decoder (jdarith.c), on top of the
    register-level decoder. */
module ArithMcuDecoding {
  import opened Powers
  import opened Bytes
  import opened Coefficients
  import opened IntervalCoder
  import opened ArithBinarization
  import opened ArithScan
  import opened ArithSegment
  import opened ArithDecoding
  import opened ArithMcuEncoding

  /** A decoded value, a code no encoder produces, or input that ends before a
      marker. */
  datatype Outcome<T> = Value(value: T) | Corrupt | Short

  /** Still decoding the same segment. */
  twostate predicate SameSegment(d: ArithDecoder)
    reads d
  {
    && d.Valid() && d.code == old(d.code) && d.ending == old(d.ending)
    && d.initial == old(d.initial) && d.src == old(d.src)
  }

  /** Figure F.24: the bits below the leading one. */
  method DecodeBits(d: ArithDecoder, bin: Bin, ghost n: nat, leading: nat) returns (r: Outcome<nat>)
    requires d.Valid() && Legal(bin) && leading == Pow2(n)
    modifies d
    ensures !r.Corrupt? && (r.Short? ==> old(d.ending) == Cut)
    ensures r.Value? ==> && SameSegment(d)
                         && ParseLowBits(old(d.Coded()), bin, n, leading, d.code) == (r.value, d.Coded())
  {
    hide ArithDecoder.Valid, LegalRun, Step, Run, Read, ValidStats;
    var m, v := leading, leading;
    ghost var j: nat := n;
    while m / 2 != 0
      invariant SameSegment(d) && m == Pow2(j)
      invariant ParseLowBits(old(d.Coded()), bin, n, leading, d.code)
             == ParseLowBits(d.Coded(), bin, j, v, d.code)
      decreases m
    {
      m := m / 2;
      j := j - 1;
      var ok, bit := d.Decode(bin);
      if !ok {
        return Short;
      }
      if bit == 1 {
        v := v + m;
      }
    }
    r := Value(v);
  }

  lemma {:induction false} LowBitsRange(k: Coder, bin: Bin, j: nat, v: nat, code: seq<byte>)
    requires ValidCoder(k) && Legal(bin)
    ensures v <= ParseLowBits(k, bin, j, v, code).0 < v + Pow2(j)
    decreases j
  {
    hide Read;
    if j != 0 {
      var (bit, next) := Read(k, bin, code);
      LowBitsRange(next, bin, j - 1, if bit == 1 then v + Pow2(j - 1) else v, code);
    }
  }

  lemma LeadingLevel(v: nat, n: nat)
    requires Pow2(n) <= v < 2 * Pow2(n)
    ensures Levels(v) == n
  {
    LevelsLimit(v, n + 1);
    LevelsLimit(v, n);
  }

  /** Figure F.23 after `i` decisions: the leading bit `m` of the magnitude. */
  method DecodeCategory(d: ArithDecoder, area: Area, base: nat, i: nat)
    returns (r: Outcome<nat>, st: nat, ghost n: nat)
    requires d.Valid() && RoomFor(area, base) && i <= 1
    modifies d
    ensures r.Short? ==> old(d.ending) == Cut
    ensures !r.Short? ==> SameSegment(d)
    ensures r.Value? ==> && r.value == Pow2(n) && st == base + n && n < 15
                         && ParseChain(old(d.Coded()), area, base, i, d.code) == Got(n, d.Coded())
    ensures r.Corrupt? ==> ParseChain(old(d.Coded()), area, base, i, d.code) == Bad(d.Coded())
  {
    hide ArithDecoder.Valid, LegalRun, Step, Run, Read, ValidStats, Pow2, ParseChain;
    Pow2Small();
    var m := if i == 0 then 1 else 2;
    st, n := base + i, i;
    while true
      invariant SameSegment(d) && m == Pow2(n) && st == base + n && n < 15
      invariant ParseChain(old(d.Coded()), area, base, i, d.code)
             == ParseChain(d.Coded(), area, base, n, d.code)
      decreases 15 - n
    {
      ChainStep(d.Coded(), area, base, n, d.code);
      var ok, bit := d.Decode(Stat(area, st));
      if !ok {
        return Short, st, n;
      }
      if bit == 0 {
        return Value(m), st, n;
      }
      CategoryLimit(n);
      m := m * 2;
      if m == 0x8000 {
        return Corrupt, st, n;
      }
      st, n := st + 1, n + 1;
    }
  }

  lemma CategoryLimit(n: nat)
    requires n < 15
    ensures Pow2(n) * 2 == Pow2(n + 1) && (Pow2(n + 1) == 0x8000 <==> n + 1 == 15)
  {
    Pow2Small();
    if n + 1 < 15 {
      Pow2Monotone(n + 1, 14);
    }
  }

  lemma ChainStep(k: Coder, area: Area, base: nat, i: nat, code: seq<byte>)
    requires ValidCoder(k) && RoomFor(area, base) && i < 15
    ensures var (bit, next) := Read(k, Stat(area, base + i), code);
      ParseChain(k, area, base, i, code)
      == if bit == 0 then Got(i, next) else if i + 1 == 15 then Bad(next)
         else ParseChain(next, area, base, i + 1, code)
  {
  }

  method DecodeTail(d: ArithDecoder, area: Area, base: nat, i: nat)
    returns (r: Outcome<nat>, m: nat)
    requires d.Valid() && RoomFor(area, base) && i <= 1
    modifies d
    ensures r.Short? ==> old(d.ending) == Cut
    ensures !r.Short? ==> SameSegment(d)
    ensures r.Value? ==> && ParseTail(old(d.Coded()), area, base, i, d.code) == Got(r.value, d.Coded())
                         && r.value > 0 && m == Pow2(Levels(r.value))
    ensures r.Corrupt? ==> ParseTail(old(d.Coded()), area, base, i, d.code) == Bad(d.Coded())
  {
    hide ArithDecoder.Valid, LegalRun, Step, Run, Read, ValidStats, ParseChain, ParseLowBits, Pow2,
      Levels;
    var category, st;
    ghost var n;
    category, st, n := DecodeCategory(d, area, base, i);
    m := 0;
    if category.Value? {
      m := category.value;
      LowBitsRange(d.Coded(), Stat(area, st + 14), n, m, d.code);
      r := DecodeBits(d, Stat(area, st + 14), n, m);
      if r.Value? {
        LeadingLevel(r.value, n);
      }
    } else {
      r := category;
    }
  }

  // -------------------------------------------------------------------- DC

  method DecodeDcMagnitude(d: ArithDecoder, tbl: nat, s: nat) returns (r: Outcome<nat>, m: nat)
    requires d.Valid() && tbl < NUM_ARITH_TBLS && s < 20
    modifies d
    ensures r.Short? ==> old(d.ending) == Cut
    ensures !r.Short? ==> SameSegment(d)
    ensures r.Value? ==> && ParseDcMagnitude(old(d.Coded()), tbl, s, d.code) == Got(r.value, d.Coded())
                         && m == if r.value == 0 then 0 else Pow2(Levels(r.value))
    ensures r.Corrupt? ==> ParseDcMagnitude(old(d.Coded()), tbl, s, d.code) == Bad(d.Coded())
  {
    hide ArithDecoder.Valid, Read, ParseTail, Pow2, Levels;
    var ok, bit := d.Decode(Stat(DcArea(tbl), s));
    if !ok {
      return Short, 0;
    }
    if bit != 0 {
      r, m := DecodeTail(d, DcArea(tbl), 20, 0);
    } else {
      r, m := Value(0), 0;
    }
  }

  lemma ContextOf(v: nat, sign: nat, lower: nat, upper: nat)
    requires sign < 2
    ensures var m := if v == 0 then 0 else Pow2(Levels(v));
      DcContext(if sign == 1 then -(v + 1) else v + 1, lower, upper)
      == if m < Pow2(lower) / 2 then 0 else
         if m > Pow2(upper) / 2 then 12 + 4 * sign else 4 + 4 * sign
  {
    hide Pow2, Levels;
  }

  /** A nonzero difference, with the conditioning context it leads to. */
  method DecodeDcValue(d: ArithDecoder, tbl: nat, ctx: nat, lower: nat, upper: nat)
    returns (r: Outcome<int>, next: nat)
    requires d.Valid() && tbl < NUM_ARITH_TBLS && ctx <= 16
    modifies d
    ensures r.Short? ==> old(d.ending) == Cut
    ensures !r.Short? ==> SameSegment(d)
    ensures r.Value? ==> && ParseDcValue(old(d.Coded()), tbl, ctx, d.code) == Got(r.value, d.Coded())
                         && next == DcContext(r.value, lower, upper)
    ensures r.Corrupt? ==> ParseDcValue(old(d.Coded()), tbl, ctx, d.code) == Bad(d.Coded())
  {
    hide ArithDecoder.Valid, Read, ParseDcMagnitude, Pow2, Levels, DcContext;
    next := 0;
    var ok, sign := d.Decode(Stat(DcArea(tbl), ctx + 1));
    if !ok {
      return Short, 0;
    }
    var mag, m := DecodeDcMagnitude(d, tbl, ctx + 2 + sign);
    match mag
    case Short => r := Short;
    case Corrupt => r := Corrupt;
    case Value(v) =>
      ContextOf(v, sign, lower, upper);
      next := Condition(m, sign, lower, upper);
      r := Value(if sign == 1 then -(v + 1) else v + 1);
  }

  /** Figure F.19, with the next conditioning context. */
  method DecodeDcDiff(d: ArithDecoder, tbl: nat, ctx: nat, lower: nat, upper: nat)
    returns (r: Outcome<int>, next: nat)
    requires d.Valid() && tbl < NUM_ARITH_TBLS && ctx <= 16
    modifies d
    ensures r.Short? ==> old(d.ending) == Cut
    ensures !r.Short? ==> SameSegment(d)
    ensures r.Value? ==> && ParseDcDiff(old(d.Coded()), tbl, ctx, d.code) == Got(r.value, d.Coded())
                         && next == DcContext(r.value, lower, upper)
    ensures r.Corrupt? ==> ParseDcDiff(old(d.Coded()), tbl, ctx, d.code) == Bad(d.Coded())
  {
    hide ArithDecoder.Valid, Read, ParseDcValue, Pow2, Levels;
    var ok, bit := d.Decode(Stat(DcArea(tbl), ctx));
    if !ok {
      return Short, 0;
    }
    if bit == 0 {
      return Value(0), 0;
    }
    r, next := DecodeDcValue(d, tbl, ctx, lower, upper);
  }

  // -------------------------------------------------------------------- AC

  method DecodeAcMagnitude(d: ArithDecoder, tbl: nat, kx: nat, pos: nat) returns (r: Outcome<nat>)
    requires d.Valid() && tbl < NUM_ARITH_TBLS && 0 < pos < 64
    modifies d
    ensures r.Short? ==> old(d.ending) == Cut
    ensures !r.Short? ==> SameSegment(d)
    ensures r.Value? ==>
              ParseAcMagnitude(old(d.Coded()), tbl, kx, pos, d.code) == Got(r.value, d.Coded())
    ensures r.Corrupt? ==> ParseAcMagnitude(old(d.Coded()), tbl, kx, pos, d.code) == Bad(d.Coded())
  {
    hide ArithDecoder.Valid, Read, ParseTail, Pow2, Levels;
    var bin := Stat(AcArea(tbl), 3 * (pos - 1) + 2);
    var ok, bit := d.Decode(bin);
    if !ok {
      return Short;
    }
    if bit == 0 {
      return Value(0);
    }
    ok, bit := d.Decode(bin);
    if !ok {
      return Short;
    }
    if bit == 0 {
      return Value(1);
    }
    var m;
    r, m := DecodeTail(d, AcArea(tbl), AcBase(kx, pos), 1);
  }

  /** Figures F.21 to F.24 for a coefficient known to be nonzero. */
  method DecodeAcValue(d: ArithDecoder, tbl: nat, kx: nat, pos: nat) returns (r: Outcome<int>)
    requires d.Valid() && tbl < NUM_ARITH_TBLS && 0 < pos < 64
    modifies d
    ensures r.Short? ==> old(d.ending) == Cut
    ensures !r.Short? ==> SameSegment(d)
    ensures r.Value? ==>
              r.value != 0 && ParseAcValue(old(d.Coded()), tbl, kx, pos, d.code) == Got(r.value, d.Coded())
    ensures r.Corrupt? ==> ParseAcValue(old(d.Coded()), tbl, kx, pos, d.code) == Bad(d.Coded())
  {
    hide ArithDecoder.Valid, Read, ParseAcMagnitude;
    var ok, sign := d.Decode(Fixed);
    if !ok {
      return Short;
    }
    var mag := DecodeAcMagnitude(d, tbl, kx, pos);
    match mag
    case Short => r := Short;
    case Corrupt => r := Corrupt;
    case Value(v) => r := Value(if sign == 1 then -(v + 1) else v + 1);
  }

  /** The block once the parsed values have been stored from position `at` on. */
  ghost function Placed(b: Zigzag, at: nat, r: Parse<seq<int>>, p1: nat): Parse<Zigzag>
    requires r.Got? ==> at + |r.value| <= 64
  {
    if r.Bad? then Bad(r.next) else Got(Overlay(b, at, r.value, p1), r.next)
  }

  lemma PlacedZero(b: Zigzag, at: nat, r: Parse<seq<int>>, p1: nat)
    requires r.Got? ==> at + 1 + |r.value| <= 64
    ensures Placed(b, at, Prepend(0, r), p1) == Placed(b, at + 1, r, p1)
  {
    hide ToCoef;
    if r.Got? {
      assert Overlay(b, at, [0] + r.value, p1) == Overlay(b, at + 1, r.value, p1);
    }
  }

  lemma PlacedValue(b: Zigzag, at: nat, v: int, r: Parse<seq<int>>, p1: nat)
    requires v != 0 && at < 64 && (r.Got? ==> at + 1 + |r.value| <= 64)
    ensures Placed(b, at, Prepend(v, r), p1) == Placed(b[at := ToCoef(v * p1)], at + 1, r, p1)
  {
    hide ToCoef;
    var c := b[at := ToCoef(v * p1)];
    if r.Got? {
      assert Overlay(b, at, [v] + r.value, p1) == Overlay(c, at + 1, r.value, p1);
    }
  }

  lemma PlacedNothing(b: Zigzag, at: nat, n: nat, k: Coder, p1: nat)
    requires at + n <= 64
    ensures Placed(b, at, Got(Zeros(n), k), p1) == Got(b, k)
  {
    hide ToCoef;
    ZerosAt(n);
    assert Overlay(b, at, Zeros(n), p1) == b;
  }

  /** The block `b` once the rest of the band has been decoded into it: from the
      end-of-block decision on, within a run, and at a nonzero coefficient. */
  ghost function RestInto(b: Zigzag, p1: nat, k: Coder, tbl: nat, kx: nat, pos: nat, n: nat,
                          code: seq<byte>): Parse<Zigzag>
    requires ValidCoder(k) && tbl < NUM_ARITH_TBLS && pos + n < 64
  {
    Placed(b, pos + 1, ParseAcRest(k, tbl, kx, pos, n, code), p1)
  }

  ghost function RunInto(b: Zigzag, p1: nat, k: Coder, tbl: nat, kx: nat, pos: nat, n: nat,
                         code: seq<byte>): Parse<Zigzag>
    requires ValidCoder(k) && tbl < NUM_ARITH_TBLS && 0 < n && pos + n < 64
  {
    Placed(b, pos + 1, ParseAcRun(k, tbl, kx, pos, n, code), p1)
  }

  ghost function FoundInto(b: Zigzag, p1: nat, k: Coder, tbl: nat, kx: nat, pos: nat, n: nat,
                           code: seq<byte>): Parse<Zigzag>
    requires ValidCoder(k) && tbl < NUM_ARITH_TBLS && 0 < n && pos + n < 64
  {
    Placed(b, pos + 1, ParseAcFound(k, tbl, kx, pos, n, code), p1)
  }

  lemma RestIntoStep(b: Zigzag, p1: nat, k: Coder, tbl: nat, kx: nat, pos: nat, n: nat, code: seq<byte>)
    requires ValidCoder(k) && tbl < NUM_ARITH_TBLS && pos + n < 64
    ensures n == 0 ==> RestInto(b, p1, k, tbl, kx, pos, n, code) == Got(b, k)
    ensures n != 0 ==>
      var (bit, next) := Read(k, Stat(AcArea(tbl), 3 * pos), code);
      RestInto(b, p1, k, tbl, kx, pos, n, code)
      == if bit == 1 then Got(b, next) else RunInto(b, p1, next, tbl, kx, pos, n, code)
  {
    hide Read, ParseAcRun, Placed;
    PlacedNothing(b, pos + 1, 0, k, p1);
    if n != 0 {
      PlacedNothing(b, pos + 1, n, Read(k, Stat(AcArea(tbl), 3 * pos), code).1, p1);
    }
  }

  lemma RunIntoStep(b: Zigzag, p1: nat, k: Coder, tbl: nat, kx: nat, pos: nat, n: nat, code: seq<byte>)
    requires ValidCoder(k) && tbl < NUM_ARITH_TBLS && 0 < n && pos + n < 64
    ensures var (bit, next) := Read(k, Stat(AcArea(tbl), 3 * pos + 1), code);
      RunInto(b, p1, k, tbl, kx, pos, n, code)
      == if bit == 1 then FoundInto(b, p1, next, tbl, kx, pos, n, code)
         else if n == 1 then Bad(next)
         else RunInto(b, p1, next, tbl, kx, pos + 1, n - 1, code)
  {
    hide Read, ParseAcFound;
    var (bit, next) := Read(k, Stat(AcArea(tbl), 3 * pos + 1), code);
    if bit != 1 && n != 1 {
      PlacedZero(b, pos + 1, ParseAcRun(next, tbl, kx, pos + 1, n - 1, code), p1);
    }
  }

  lemma FoundIntoStep(b: Zigzag, p1: nat, k: Coder, tbl: nat, kx: nat, pos: nat, n: nat, code: seq<byte>)
    requires ValidCoder(k) && tbl < NUM_ARITH_TBLS && 0 < n && pos + n < 64
    ensures var value := ParseAcValue(k, tbl, kx, pos + 1, code);
      FoundInto(b, p1, k, tbl, kx, pos, n, code)
      == if value.Bad? then Bad(value.next)
         else RestInto(if value.value == 0 then b else b[pos + 1 := ToCoef(value.value * p1)], p1,
                       value.next, tbl, kx, pos + 1, n - 1, code)
  {
    hide ParseAcValue, ParseAcRest;
    var value := ParseAcValue(k, tbl, kx, pos + 1, code);
    if value.Got? {
      var rest := ParseAcRest(value.next, tbl, kx, pos + 1, n - 1, code);
      if value.value == 0 {
        PlacedZero(b, pos + 1, rest, p1);
      } else {
        PlacedValue(b, pos + 1, value.value, rest, p1);
      }
    }
  }

  /** Is the coefficient after position `k` nonzero? */
  method DecodeNonzero(d: ArithDecoder, tbl: nat, ghost kx: nat, k: nat, se: nat, ghost b: Zigzag,
                       ghost p1: nat) returns (r: Outcome<bool>)
    requires d.Valid() && tbl < NUM_ARITH_TBLS && k < se < 64
    modifies d
    ensures !r.Corrupt? && (r.Short? ==> old(d.ending) == Cut)
    ensures r.Value? ==>
              && SameSegment(d)
              && RunInto(b, p1, old(d.Coded()), tbl, kx, k, se - k, d.code)
                 == if r.value then FoundInto(b, p1, d.Coded(), tbl, kx, k, se - k, d.code)
                    else if k + 1 == se then Bad(d.Coded())
                    else RunInto(b, p1, d.Coded(), tbl, kx, k + 1, se - k - 1, d.code)
  {
    hide ArithDecoder.Valid, Read, RunInto, FoundInto;
    RunIntoStep(b, p1, d.Coded(), tbl, kx, k, se - k, d.code);
    var ok, bit := d.Decode(Stat(AcArea(tbl), 3 * k + 1));
    r := if ok then Value(bit == 1) else Short;
  }

  /** Figure F.20: the run from position `from` to the next nonzero coefficient. */
  method DecodeRun(d: ArithDecoder, tbl: nat, ghost kx: nat, se: nat, from: nat, ghost b: Zigzag,
                   ghost p1: nat) returns (r: Outcome<nat>)
    requires d.Valid() && tbl < NUM_ARITH_TBLS && from < se < 64
    modifies d
    ensures r.Short? ==> old(d.ending) == Cut
    ensures !r.Short? ==> SameSegment(d)
    ensures r.Value? ==>
              && from < r.value <= se
              && RunInto(b, p1, old(d.Coded()), tbl, kx, from, se - from, d.code)
                 == FoundInto(b, p1, d.Coded(), tbl, kx, r.value - 1, se + 1 - r.value, d.code)
    ensures r.Corrupt? ==>
              RunInto(b, p1, old(d.Coded()), tbl, kx, from, se - from, d.code) == Bad(d.Coded())
  {
    hide ArithDecoder.Valid, RunInto, FoundInto;
    var k := from;
    r := Corrupt;
    while true
      invariant SameSegment(d) && from <= k < se
      invariant RunInto(b, p1, old(d.Coded()), tbl, kx, from, se - from, d.code)
             == RunInto(b, p1, d.Coded(), tbl, kx, k, se - k, d.code)
      decreases se - k
    {
      var found := DecodeNonzero(d, tbl, kx, k, se, b, p1);
      if !found.Value? {
        return Short;
      }
      k := k + 1;
      if found.value {
        return Value(k);
      }
      if k >= se {
        return Corrupt;
      }
    }
  }

  /** Decode and store the nonzero coefficient at position `k`. */
  method DecodeInto(d: ArithDecoder, tbl: nat, kx: nat, order: seq<nat>, block: array<int>, k: nat,
                    se: nat, p1: nat) returns (r: Outcome<()>)
    requires d.Valid() && tbl < NUM_ARITH_TBLS && 0 < k <= se < 64 && IsOrder(order) && block.Length == 64
    modifies d, block
    ensures r.Short? ==> old(d.ending) == Cut
    ensures !r.Short? ==> SameSegment(d)
    ensures r.Value? ==>
              FoundInto(old(Held(order, block)), p1, old(d.Coded()), tbl, kx, k - 1, se + 1 - k, d.code)
              == RestInto(Held(order, block), p1, d.Coded(), tbl, kx, k, se - k, d.code)
    ensures r.Corrupt? ==>
              FoundInto(old(Held(order, block)), p1, old(d.Coded()), tbl, kx, k - 1, se + 1 - k, d.code)
              == Bad(d.Coded())
  {
    hide ArithDecoder.Valid, RestInto, FoundInto, ParseAcValue, Held, IsOrder, ToCoef;
    FoundIntoStep(Held(order, block), p1, d.Coded(), tbl, kx, k - 1, se + 1 - k, d.code);
    var v := DecodeAcValue(d, tbl, kx, k);
    if !v.Value? {
      return if v.Short? then Short else Corrupt;
    }
    Store(order, block, k, ToCoef(v.value * p1));
    r := Value(());
  }

  /** The AC coefficients of positions `start` to `se`, scaled by `p1`. */
  method DecodeBand(d: ArithDecoder, tbl: nat, kx: nat, order: seq<nat>, block: array<int>,
                    start: nat, se: nat, p1: nat) returns (r: Outcome<()>)
    requires d.Valid() && tbl < NUM_ARITH_TBLS && 0 < start <= se < 64
    requires IsOrder(order) && block.Length == 64
    modifies d, block
    ensures r.Short? ==> old(d.ending) == Cut
    ensures !r.Short? ==> SameSegment(d)
    ensures r.Value? ==>
              RestInto(old(Held(order, block)), p1, old(d.Coded()), tbl, kx, start - 1, se + 1 - start, d.code)
              == Got(Held(order, block), d.Coded())
    ensures r.Corrupt? ==>
              RestInto(old(Held(order, block)), p1, old(d.Coded()), tbl, kx, start - 1, se + 1 - start, d.code)
              == Bad(d.Coded())
  {
    hide ArithDecoder.Valid, Read, RestInto, RunInto, FoundInto, ParseAcValue, Held, IsOrder, ToCoef;
    var k := start - 1;
    ghost var all := RestInto(Held(order, block), p1, d.Coded(), tbl, kx, k, se - k, d.code);
    while k < se
      invariant SameSegment(d) && start - 1 <= k <= se
      invariant all == RestInto(Held(order, block), p1, d.Coded(), tbl, kx, k, se - k, d.code)
      decreases se - k
    {
      ghost var b := Held(order, block);
      RestIntoStep(b, p1, d.Coded(), tbl, kx, k, se - k, d.code);
      var ok, bit := d.Decode(Stat(AcArea(tbl), 3 * k));
      if !ok {
        return Short;
      }
      if bit == 1 {
        return Value(());
      }
      var run := DecodeRun(d, tbl, kx, se, k, b, p1);
      if !run.Value? {
        return if run.Short? then Short else Corrupt;
      }
      k := run.value;
      r := DecodeInto(d, tbl, kx, order, block, k, se, p1);
      if !r.Value? {
        return;
      }
    }
    RestIntoStep(Held(order, block), p1, d.Coded(), tbl, kx, k, se - k, d.code);
    r := Value(());
  }

  // -------------------------------------------------------- AC refinement

  /** The block once the refined values have been stored from position `at` on. */
  ghost function Refined(b: Zigzag, at: nat, r: Parse<seq<int>>): Parse<Zigzag>
    requires r.Got? ==> at + |r.value| <= 64
  {
    if r.Bad? then Bad(r.next) else Got(Replace(b, at, r.value), r.next)
  }

  lemma RefinedHead(b: Zigzag, at: nat, v: int, r: Parse<seq<int>>)
    requires at < 64 && (r.Got? ==> at + 1 + |r.value| <= 64)
    ensures Refined(b, at, Prepend(v, r)) == Refined(b[at := v], at + 1, r)
  {
    if r.Got? {
      assert Replace(b, at, [v] + r.value) == Replace(b[at := v], at + 1, r.value);
    }
  }

  lemma RefinedSame(b: Zigzag, at: nat, end: nat, k: Coder)
    requires at <= end <= 64
    ensures Refined(b, at, Got(b[at..end], k)) == Got(b, k)
  {
    assert Replace(b, at, b[at..end]) == b;
  }

  /** The block `b` once the band up to `se` has been refined in it: from the
      end-of-block decision on, and within a run. */
  ghost function RefRestInto(b: Zigzag, p1: nat, k: Coder, tbl: nat, kex: nat, pos: nat, se: nat,
                             code: seq<byte>): Parse<Zigzag>
    requires ValidCoder(k) && tbl < NUM_ARITH_TBLS && pos <= se < 64
  {
    Refined(b, pos + 1, ParseRefRest(k, tbl, kex, pos, b[pos + 1..se + 1], p1, code))
  }

  ghost function RefRunInto(b: Zigzag, p1: nat, k: Coder, tbl: nat, kex: nat, pos: nat, se: nat,
                            code: seq<byte>): Parse<Zigzag>
    requires ValidCoder(k) && tbl < NUM_ARITH_TBLS && pos < se < 64
  {
    Refined(b, pos + 1, ParseRefRun(k, tbl, kex, pos, b[pos + 1..se + 1], p1, code))
  }

  lemma RefRestIntoStep(b: Zigzag, p1: nat, k: Coder, tbl: nat, kex: nat, pos: nat, se: nat,
                        code: seq<byte>)
    requires ValidCoder(k) && tbl < NUM_ARITH_TBLS && pos <= se < 64
    ensures pos == se ==> RefRestInto(b, p1, k, tbl, kex, pos, se, code) == Got(b, k)
    ensures pos < se && kex <= pos ==>
      var (bit, next) := Read(k, Stat(AcArea(tbl), 3 * pos), code);
      RefRestInto(b, p1, k, tbl, kex, pos, se, code)
      == if bit == 1 then Got(b, next) else RefRunInto(b, p1, next, tbl, kex, pos, se, code)
    ensures pos < se && pos < kex ==>
      RefRestInto(b, p1, k, tbl, kex, pos, se, code) == RefRunInto(b, p1, k, tbl, kex, pos, se, code)
  {
    hide Read, ParseRefRun, Refined;
    RefinedSame(b, pos + 1, se + 1, k);
    if pos < se {
      RefinedSame(b, pos + 1, se + 1, Read(k, Stat(AcArea(tbl), 3 * pos), code).1);
    }
  }

  lemma RefRunIntoOld(b: Zigzag, p1: nat, k: Coder, tbl: nat, kex: nat, pos: nat, se: nat,
                      code: seq<byte>)
    requires ValidCoder(k) && tbl < NUM_ARITH_TBLS && pos < se < 64 && b[pos + 1] != 0
    ensures var (bit, next) := Read(k, Stat(AcArea(tbl), 3 * pos + 2), code);
      RefRunInto(b, p1, k, tbl, kex, pos, se, code)
      == RefRestInto(b[pos + 1 := Corrected(b[pos + 1], bit, p1)], p1, next, tbl, kex, pos + 1, se, code)
  {
    hide Read, ParseRefRest, Corrected, Refined;
    var (bit, next) := Read(k, Stat(AcArea(tbl), 3 * pos + 2), code);
    var v, rest := Corrected(b[pos + 1], bit, p1), b[pos + 2..se + 1];
    assert b[pos + 1..se + 1][1..] == rest == b[pos + 1 := v][pos + 2..se + 1];
    RefinedHead(b, pos + 1, v, ParseRefRest(next, tbl, kex, pos + 1, rest, p1, code));
  }

  lemma RefRunIntoNew(b: Zigzag, p1: nat, k: Coder, tbl: nat, kex: nat, pos: nat, se: nat,
                      code: seq<byte>)
    requires ValidCoder(k) && tbl < NUM_ARITH_TBLS && pos < se < 64 && b[pos + 1] == 0
    ensures var (bit, next) := Read(k, Stat(AcArea(tbl), 3 * pos + 1), code);
      var (sign, last) := Read(next, Fixed, code);
      RefRunInto(b, p1, k, tbl, kex, pos, se, code)
      == if bit == 1 then
           RefRestInto(b[pos + 1 := ToCoef(Signed(sign, p1))], p1, last, tbl, kex, pos + 1, se, code)
         else if pos + 1 == se then Bad(next)
         else RefRunInto(b, p1, next, tbl, kex, pos + 1, se, code)
  {
    hide Read, ParseRefRest, ToCoef, Refined, Signed;
    var (bit, next) := Read(k, Stat(AcArea(tbl), 3 * pos + 1), code);
    var (sign, last) := Read(next, Fixed, code);
    var rest := b[pos + 2..se + 1];
    assert b[pos + 1..se + 1][1..] == rest;
    if bit == 1 {
      var v := ToCoef(Signed(sign, p1));
      assert rest == b[pos + 1 := v][pos + 2..se + 1];
      RefinedHead(b, pos + 1, v, ParseRefRest(last, tbl, kex, pos + 1, rest, p1, code));
    } else if pos + 1 == se {
      RefinedBad(b, pos + 1, next);
    } else {
      RefinedHead(b, pos + 1, 0, ParseRefRun(next, tbl, kex, pos + 1, rest, p1, code));
      assert b[pos + 1 := 0] == b;
    }
  }

  lemma RefinedBad(b: Zigzag, at: nat, k: Coder)
    ensures Refined(b, at, Bad(k)) == Bad(k)
  {
  }

  /** The previous stage's end-of-block index, found in the block. */
  method FindEobx(order: seq<nat>, block: array<int>, se: nat) returns (kex: nat)
    requires IsOrder(order) && block.Length == 64 && se < 64
    ensures kex == LastNonzero(Held(order, block), se)
  {
    kex := se;
    while kex > 0 && block[order[kex]] == 0
      invariant kex <= se && LastNonzero(Held(order, block), se) == LastNonzero(Held(order, block), kex)
    {
      kex := kex - 1;
    }
  }

  /** A correction bit for a coefficient that is not zero. */
  method RefineOld(d: ArithDecoder, tbl: nat, ghost kex: nat, order: seq<nat>, block: array<int>,
                     k: nat, se: nat, p1: nat) returns (r: Outcome<bool>)
    requires d.Valid() && tbl < NUM_ARITH_TBLS && k < se < 64 && IsOrder(order) && block.Length == 64
    requires Held(order, block)[k + 1] != 0
    modifies d, block
    ensures r.Short? ==> old(d.ending) == Cut
    ensures !r.Short? ==> SameSegment(d)
    ensures r.Value? ==>
              RefRunInto(old(Held(order, block)), p1, old(d.Coded()), tbl, kex, k, se, d.code)
              == if r.value then RefRestInto(Held(order, block), p1, d.Coded(), tbl, kex, k + 1, se, d.code)
                 else if k + 1 == se then Bad(d.Coded())
                 else RefRunInto(Held(order, block), p1, d.Coded(), tbl, kex, k + 1, se, d.code)
    ensures !r.Corrupt?
  {
    hide ArithDecoder.Valid, Read, RefRunInto, RefRestInto, Corrected, Held;
    HeldAt(order, block, k + 1);
    RefRunIntoOld(Held(order, block), p1, d.Coded(), tbl, kex, k, se, d.code);
    var ok, bit := d.Decode(Stat(AcArea(tbl), 3 * k + 2));
    if !ok {
      return Short;
    }
    Store(order, block, k + 1, Corrected(block[order[k + 1]], bit, p1));
    r := Value(true);
  }

  /** Whether a zero becomes a coefficient, and its sign. */
  method RefineNew(d: ArithDecoder, tbl: nat, ghost kex: nat, order: seq<nat>, block: array<int>,
                     k: nat, se: nat, p1: nat) returns (r: Outcome<bool>)
    requires d.Valid() && tbl < NUM_ARITH_TBLS && k < se < 64 && IsOrder(order) && block.Length == 64
    requires Held(order, block)[k + 1] == 0
    modifies d, block
    ensures r.Short? ==> old(d.ending) == Cut
    ensures !r.Short? ==> SameSegment(d)
    ensures r.Value? ==>
              RefRunInto(old(Held(order, block)), p1, old(d.Coded()), tbl, kex, k, se, d.code)
              == if r.value then RefRestInto(Held(order, block), p1, d.Coded(), tbl, kex, k + 1, se, d.code)
                 else if k + 1 == se then Bad(d.Coded())
                 else RefRunInto(Held(order, block), p1, d.Coded(), tbl, kex, k + 1, se, d.code)
    ensures !r.Corrupt?
  {
    hide ArithDecoder.Valid, Read, RefRunInto, RefRestInto, ToCoef, Signed, Held;
    RefRunIntoNew(Held(order, block), p1, d.Coded(), tbl, kex, k, se, d.code);
    var ok, bit := d.Decode(Stat(AcArea(tbl), 3 * k + 1));
    if !ok {
      return Short;
    }
    if bit == 0 {
      return Value(false);
    }
    var sign;
    ok, sign := d.Decode(Fixed);
    if !ok {
      return Short;
    }
    Store(order, block, k + 1, ToCoef(Signed(sign, p1)));
    r := Value(true);
  }

  /** One coefficient of the run after position `k`: refined and `done`, or a
      zero that stays. */
  method RefineStep(d: ArithDecoder, tbl: nat, ghost kex: nat, order: seq<nat>, block: array<int>,
                     k: nat, se: nat, p1: nat) returns (r: Outcome<bool>)
    requires d.Valid() && tbl < NUM_ARITH_TBLS && k < se < 64 && IsOrder(order) && block.Length == 64
    modifies d, block
    ensures r.Short? ==> old(d.ending) == Cut
    ensures !r.Short? ==> SameSegment(d)
    ensures r.Value? ==>
              RefRunInto(old(Held(order, block)), p1, old(d.Coded()), tbl, kex, k, se, d.code)
              == if r.value then RefRestInto(Held(order, block), p1, d.Coded(), tbl, kex, k + 1, se, d.code)
                 else if k + 1 == se then Bad(d.Coded())
                 else RefRunInto(Held(order, block), p1, d.Coded(), tbl, kex, k + 1, se, d.code)
    ensures !r.Corrupt?
  {
    hide ArithDecoder.Valid, Read, RefRunInto, RefRestInto, Held;
    HeldAt(order, block, k + 1);
    if block[order[k + 1]] != 0 {
      r := RefineOld(d, tbl, kex, order, block, k, se, p1);
    } else {
      r := RefineNew(d, tbl, kex, order, block, k, se, p1);
    }
  }

  /** The run after position `from`, up to and with a refined coefficient. */
  method RefineRun(d: ArithDecoder, tbl: nat, ghost kex: nat, order: seq<nat>, block: array<int>,
                   from: nat, se: nat, p1: nat) returns (r: Outcome<nat>)
    requires d.Valid() && tbl < NUM_ARITH_TBLS && from < se < 64
    requires IsOrder(order) && block.Length == 64
    modifies d, block
    ensures r.Short? ==> old(d.ending) == Cut
    ensures !r.Short? ==> SameSegment(d)
    ensures r.Value? ==>
              && from < r.value <= se
              && RefRunInto(old(Held(order, block)), p1, old(d.Coded()), tbl, kex, from, se, d.code)
                 == RefRestInto(Held(order, block), p1, d.Coded(), tbl, kex, r.value, se, d.code)
    ensures r.Corrupt? ==>
              RefRunInto(old(Held(order, block)), p1, old(d.Coded()), tbl, kex, from, se, d.code)
              == Bad(d.Coded())
  {
    hide ArithDecoder.Valid, RefRestInto, RefRunInto, Held, IsOrder;
    var k := from;
    r := Corrupt;
    while true
      invariant SameSegment(d) && from <= k < se
      invariant RefRunInto(old(Held(order, block)), p1, old(d.Coded()), tbl, kex, from, se, d.code)
             == RefRunInto(Held(order, block), p1, d.Coded(), tbl, kex, k, se, d.code)
      decreases se - k
    {
      var step := RefineStep(d, tbl, kex, order, block, k, se, p1);
      if !step.Value? {
        return Short;
      }
      k := k + 1;
      if step.value {
        return Value(k);
      }
      if k >= se {
        return Corrupt;
      }
    }
  }

  /** The end-of-block decision, from the last coefficient known before on. */
  method RefineEob(d: ArithDecoder, tbl: nat, kex: nat, k: nat, se: nat, ghost b: Zigzag, ghost p1: nat)
    returns (r: Outcome<bool>)
    requires d.Valid() && tbl < NUM_ARITH_TBLS && k < se < 64
    modifies d
    ensures r.Short? ==> old(d.ending) == Cut
    ensures !r.Corrupt? && (!r.Short? ==> SameSegment(d))
    ensures r.Value? ==>
              RefRestInto(b, p1, old(d.Coded()), tbl, kex, k, se, d.code)
              == if r.value then Got(b, d.Coded()) else RefRunInto(b, p1, d.Coded(), tbl, kex, k, se, d.code)
  {
    hide ArithDecoder.Valid, Read, RefRestInto, RefRunInto;
    RefRestIntoStep(b, p1, d.Coded(), tbl, kex, k, se, d.code);
    r := Value(false);
    if k >= kex {
      var ok, bit := d.Decode(Stat(AcArea(tbl), 3 * k));
      r := if ok then Value(bit == 1) else Short;
    }
  }

  /** The AC band of a block refined in place (section G.1.3.3). */
  method DecodeRefinement(d: ArithDecoder, tbl: nat, order: seq<nat>, block: array<int>, ss: nat, se: nat,
                          p1: nat) returns (r: Outcome<()>)
    requires d.Valid() && tbl < NUM_ARITH_TBLS && 0 < ss <= se < 64
    requires IsOrder(order) && block.Length == 64
    modifies d, block
    ensures r.Short? ==> old(d.ending) == Cut
    ensures !r.Short? ==> SameSegment(d)
    ensures r.Value? ==>
              RefRestInto(old(Held(order, block)), p1, old(d.Coded()), tbl,
                          LastNonzero(old(Held(order, block)), se), ss - 1, se, d.code)
              == Got(Held(order, block), d.Coded())
    ensures r.Corrupt? ==>
              RefRestInto(old(Held(order, block)), p1, old(d.Coded()), tbl,
                          LastNonzero(old(Held(order, block)), se), ss - 1, se, d.code)
              == Bad(d.Coded())
  {
    hide ArithDecoder.Valid, Read, RefRestInto, RefRunInto, Held, IsOrder, LastNonzero;
    var kex := FindEobx(order, block, se);
    var k := ss - 1;
    ghost var all := RefRestInto(Held(order, block), p1, d.Coded(), tbl, kex, k, se, d.code);
    while k < se
      invariant SameSegment(d) && ss - 1 <= k <= se
      invariant all == RefRestInto(Held(order, block), p1, d.Coded(), tbl, kex, k, se, d.code)
      decreases se - k
    {
      var eob := RefineEob(d, tbl, kex, k, se, Held(order, block), p1);
      if !eob.Value? {
        return Short;
      }
      if eob.value {
        return Value(());
      }
      var found := RefineRun(d, tbl, kex, order, block, k, se, p1);
      if !found.Value? {
        return if found.Short? then Short else Corrupt;
      }
      k := found.value;
    }
    RefRestIntoStep(Held(order, block), p1, d.Coded(), tbl, kex, k, se, d.code);
    r := Value(());
  }

  // ---------------------------------------------------------------- blocks

  /** DC of a first pass or a sequential scan. */
  method DecodeDc(d: ArithDecoder, s: Scan, p: Pred, ci: nat, order: seq<nat>, block: array<int>)
    returns (r: Outcome<Pred>)
    requires d.Valid() && ValidScan(s) && ValidPred(s, p) && ci < |s.comps|
    requires IsOrder(order) && block.Length == 64
    modifies d, block
    ensures r.Short? ==> old(d.ending) == Cut
    ensures !r.Short? ==> SameSegment(d)
    ensures r.Value? ==>
              ParseDc(s, p, ci, old(Held(order, block)), old(d.Coded()), d.code)
              == Got(Unit(Held(order, block), r.value), d.Coded())
    ensures r.Corrupt? ==>
              ParseDc(s, p, ci, old(Held(order, block)), old(d.Coded()), d.code) == Bad(d.Coded())
  {
    hide ArithDecoder.Valid, ParseDcDiff, DcContext, Pow2, ToCoef, Held;
    var tbl := s.comps[ci].dcTbl;
    var diff, ctx := DecodeDcDiff(d, tbl, p.ctx[ci], s.cond.dcL[tbl], s.cond.dcU[tbl]);
    match diff
    case Short => r := Short;
    case Corrupt => r := Corrupt;
    case Value(v) =>
      var lastDc := p.lastDc[ci] + v;
      Store(order, block, 0, ToCoef(lastDc * Pow2(s.al)));
      r := Value(Pred(p.lastDc[ci := lastDc], p.ctx[ci := ctx]));
  }

  /** The AC band of a sequential or first-stage block, if there is one. */
  method DecodeAc(d: ArithDecoder, s: Scan, ci: nat, order: seq<nat>, block: array<int>)
    returns (r: Outcome<()>)
    requires d.Valid() && ValidScan(s) && ci < |s.comps|
    requires IsOrder(order) && block.Length == 64
    modifies d, block
    ensures r.Short? ==> old(d.ending) == Cut
    ensures !r.Short? ==> SameSegment(d)
    ensures r.Value? ==>
              ParseBand(s, ci, old(Held(order, block)), old(d.Coded()), d.code)
              == Got(Held(order, block), d.Coded())
    ensures r.Corrupt? ==>
              ParseBand(s, ci, old(Held(order, block)), old(d.Coded()), d.code) == Bad(d.Coded())
  {
    hide ArithDecoder.Valid, ParseAcRest, Pow2, Held, Overlay;
    if s.se < BandStart(s) {
      return Value(());
    }
    var tbl := s.comps[ci].acTbl;
    r := DecodeBand(d, tbl, s.cond.acK[tbl], order, block, BandStart(s), s.se, Pow2(s.al));
  }

  method DecodeRefine(d: ArithDecoder, s: Scan, ci: nat, order: seq<nat>, block: array<int>)
    returns (r: Outcome<()>)
    requires d.Valid() && ValidScan(s) && s.mode == AcRefine && ci < |s.comps|
    requires IsOrder(order) && block.Length == 64
    modifies d, block
    ensures r.Short? ==> old(d.ending) == Cut
    ensures !r.Short? ==> SameSegment(d)
    ensures r.Value? ==>
              ParseRefine(s, ci, old(Held(order, block)), old(d.Coded()), d.code)
              == Got(Held(order, block), d.Coded())
    ensures r.Corrupt? ==>
              ParseRefine(s, ci, old(Held(order, block)), old(d.Coded()), d.code) == Bad(d.Coded())
  {
    hide ArithDecoder.Valid, ParseRefRest, Pow2, Held, Replace, LastNonzero;
    r := DecodeRefinement(d, s.comps[ci].acTbl, order, block, s.ss, s.se, Pow2(s.al));
  }

  /** The next bit of the DC value. */
  method DecodeDcBit(d: ArithDecoder, order: seq<nat>, block: array<int>, p1: nat)
    returns (r: Outcome<()>)
    requires d.Valid() && IsOrder(order) && block.Length == 64 && 0 < p1
    modifies d, block
    ensures !r.Corrupt? && (r.Short? ==> old(d.ending) == Cut)
    ensures r.Value? ==>
              && SameSegment(d)
              && var (bit, next) := Read(old(d.Coded()), Fixed, d.code);
                 && next == d.Coded()
                 && var b := old(Held(order, block));
                    Held(order, block) == if bit == 1 then b[0 := OrBit(b[0], p1)] else b
  {
    hide ArithDecoder.Valid, Read, OrBit;
    var ok, bit := d.Decode(Fixed);
    if !ok {
      return Short;
    }
    if bit == 1 {
      Store(order, block, 0, OrBit(block[0], p1));
    }
    r := Value(());
  }

  /** One block of component `ci`, decoded over what the block holds. */
  method DecodeBlock(d: ArithDecoder, s: Scan, p: Pred, ci: nat, order: seq<nat>, block: array<int>)
    returns (r: Outcome<Pred>)
    requires d.Valid() && ValidScan(s) && ValidPred(s, p) && ci < |s.comps|
    requires IsOrder(order) && block.Length == 64
    modifies d, block
    ensures r.Short? ==> old(d.ending) == Cut
    ensures !r.Short? ==> SameSegment(d)
    ensures r.Value? ==>
              ParseBlock(s, p, ci, old(Held(order, block)), old(d.Coded()), d.code)
              == Got(Unit(Held(order, block), r.value), d.Coded())
    ensures r.Corrupt? ==>
              ParseBlock(s, p, ci, old(Held(order, block)), old(d.Coded()), d.code) == Bad(d.Coded())
  {
    hide ArithDecoder.Valid, ParseDc, ParseBand, ParseRefine, Held, Read, OrBit, Pow2;
    match s.mode
    case Sequential =>
      r := DecodeDc(d, s, p, ci, order, block);
      if r.Value? {
        var ac := DecodeAc(d, s, ci, order, block);
        r := if ac.Short? then Short else if ac.Corrupt? then Corrupt else r;
      }
    case DcFirst =>
      r := DecodeDc(d, s, p, ci, order, block);
    case AcFirst =>
      var ac := DecodeAc(d, s, ci, order, block);
      r := if ac.Short? then Short else if ac.Corrupt? then Corrupt else Value(p);
    case DcRefine =>
      var dc := DecodeDcBit(d, order, block, Pow2(s.al));
      r := if dc.Short? then Short else Value(p);
    case AcRefine =>
      var ac := DecodeRefine(d, s, ci, order, block);
      r := if ac.Short? then Short else if ac.Corrupt? then Corrupt else Value(p);
  }
}
