/** The arithmetic encoder's registers and output (jcarith.c). */
module ArithEncoding {
  import opened Powers
  import opened Bytes
  import opened ProbabilityTable
  import opened IntervalCoder

  // ------------------------------------------------------ what registers mean

  /** The exact interval that fixed digits and registers denote together: `c`
      continues the digits with 27 - ct more bits. */
  function Denoted(digits: seq<byte>, c: nat, a: nat, ct: nat): (iv: Interval)
    requires ct <= 11
    ensures iv.width == a
  {
    Interval(Val(digits) * Pow2(27 - ct) + c, a, 8 * |digits| + 11 - ct)
  }

  /** Register ranges: at most one carry bit and the spacer bits above the next
      byte, and never beyond the initial interval. */
  ghost predicate Bounded(digits: seq<byte>, c: nat, a: nat, ct: nat)
    requires ct <= 11
  {
    && c + a <= 9 * Pow2(24 - ct)
    && Denoted(digits, c, a, ct).low + a <= Pow2(16 + Denoted(digits, c, a, ct).shift)
  }

  lemma ShiftRegisters(digits: seq<byte>, c: nat, a: nat, ct: nat)
    requires 0 < ct <= 11 && Bounded(digits, c, a, ct)
    ensures Bounded(digits, 2 * c, 2 * a, ct - 1)
    ensures Denoted(digits, 2 * c, 2 * a, ct - 1) == Double(Denoted(digits, c, a, ct))
  {
    assert Pow2(27 - (ct - 1)) == 2 * Pow2(27 - ct) && Pow2(24 - (ct - 1)) == 2 * Pow2(24 - ct);
    MulShuffle(Val(digits), 2, Pow2(27 - ct));
    MulShuffle(Val(digits), Pow2(27 - ct), 2);
    assert Val(digits) * Pow2(27 - (ct - 1)) == 2 * (Val(digits) * Pow2(27 - ct));
    assert Pow2(16 + (8 * |digits| + 11 - (ct - 1))) == 2 * Pow2(16 + (8 * |digits| + 11 - ct));
  }

  lemma NarrowRegisters(digits: seq<byte>, c: nat, a: nat, ct: nat, qe: nat)
    requires ct <= 11 && 0 < qe < a && Bounded(digits, c, a, ct)
    ensures Bounded(digits, c, a - qe, ct) && Bounded(digits, c + (a - qe), qe, ct)
    ensures Denoted(digits, c, a - qe, ct) == Narrow(Denoted(digits, c, a, ct), qe, false)
    ensures Denoted(digits, c + (a - qe), qe, ct) == Narrow(Denoted(digits, c, a, ct), qe, true)
  {
  }

  lemma ByteMoved(digits: seq<byte>, next: seq<byte>, c: nat, a: nat)
    requires 0 < a <= 0x1_0000 && Bounded(digits, c, a, 0)
    requires |next| == |digits| + 1 && Val(next) == Val(digits) * 256 + c / 0x8_0000
    ensures Bounded(next, c % 0x8_0000, a, 8)
    ensures Denoted(next, c % 0x8_0000, a, 8) == Denoted(digits, c, a, 0)
  {
    Pow2Small();
    assert Val(next) * 0x8_0000 + c % 0x8_0000 == Val(digits) * 0x800_0000 + c;
  }

  lemma TopByteRange(digits: seq<byte>, c: nat, a: nat)
    requires 0 < a && Bounded(digits, c, a, 0)
    ensures c < 0x900_0000
  {
    Pow2Small();
  }

  /** While every digit is 0xFF the register has no room for a carry. */
  lemma OnesRoom(n: nat, c: nat, a: nat, ct: nat)
    requires ct <= 11 && Bounded(Repeat(255, n), c, a, ct)
    ensures c + a <= Pow2(27 - ct)
  {
    hide Pow2, Val;
    ValAllOnes(n);
    Pow2Add(27 - ct, 8 * n);
    assert 16 + Denoted(Repeat(255, n), c, a, ct).shift == 27 - ct + 8 * n;
    LastUnit(Val(Repeat(255, n)), Pow2(27 - ct), Pow2(8 * n), c + a);
  }

  lemma LastUnit(v: nat, p: nat, q: nat, r: nat)
    requires v + 1 == q && v * p + r <= p * q
    ensures r <= p
  {
    assert p * q == v * p + p;
  }

  /** A carry into the digits: the held digit goes up by one and the stacked
      0xFF digits behind it become zeros. */
  lemma CarryDigits(e: seq<byte>, b: byte, s: nat)
    requires b < 255
    ensures Val(e + [b] + Repeat(255, s)) + 1 == Val(e + [b + 1] + Repeat(0, s))
  {
    assert e + [b] + Repeat(255, s) == e + ([b] + Repeat(255, s));
    assert e + [b + 1] + Repeat(0, s) == e + ([b + 1] + Repeat(0, s));
    ValAppend(e, [b] + Repeat(255, s));
    ValAppend(e, [b + 1] + Repeat(0, s));
    ValCarry(b, s);
  }

  function Held(buffer: int): seq<byte>
    requires buffer < 255
  {
    if buffer < 0 then [] else [buffer]
  }

  /** Digits in output order: written, pending zeros, held, stacked. */
  function DigitsOf(emitted: seq<byte>, zc: nat, buffer: int, sc: nat): seq<byte>
    requires buffer < 255
  {
    emitted + Repeat(0, zc) + Held(buffer) + Repeat(255, sc)
  }

  lemma OneMore(e: seq<byte>, zc: nat, b: byte)
    requires b < 255
    ensures DigitsOf(e, zc, b, 0) == e + Repeat(0, zc) + [b]
    ensures Val(DigitsOf(e, zc, b, 0)) == Val(e + Repeat(0, zc)) * 256 + b
  {
    ValSnoc(e + Repeat(0, zc), b);
    assert DigitsOf(e, zc, b, 0) == e + Repeat(0, zc) + [b];
  }

  lemma StackOne(e: seq<byte>, zc: nat, buffer: int, sc: nat)
    requires buffer < 255
    ensures DigitsOf(e, zc, buffer, sc + 1) == DigitsOf(e, zc, buffer, sc) + [255]
    ensures Val(DigitsOf(e, zc, buffer, sc + 1)) == Val(DigitsOf(e, zc, buffer, sc)) * 256 + 255
  {
    ValSnoc(DigitsOf(e, zc, buffer, sc), 255);
    assert DigitsOf(e, zc, buffer, sc + 1) == DigitsOf(e, zc, buffer, sc) + [255];
  }

  lemma OnlyOnes(sc: nat)
    ensures DigitsOf([], 0, -1, sc) == Repeat(255, sc)
  {
  }

  // -------------------------------------------------------------- termination

  lemma PickAddMultiple(low: nat, width: nat, shift: nat, other: nat, m: nat)
    requires 0x8000 <= width <= 0x1_0000
    ensures Pick(Interval(m * 0x1_0000 + low, width, shift))
         == m * 0x1_0000 + Pick(Interval(low, width, other))
  {
    assert (m * 0x1_0000 + low + width - 1) / 0x1_0000 == m + (low + width - 1) / 0x1_0000;
  }

  /** The terminating value is chosen in the register alone. */
  lemma PickInRegister(digits: seq<byte>, c: nat, a: nat, ct: nat)
    requires 0 < ct <= 11 && 0x8000 <= a <= 0x1_0000
    ensures Pick(Denoted(digits, c, a, ct))
         == Val(digits) * Pow2(27 - ct) + Pick(Interval(c, a, 0))
  {
    hide Pow2, Val, Pick;
    Pow2Add(11 - ct, 16);
    Pow2Small();
    MulShuffle(Val(digits), Pow2(11 - ct), 0x1_0000);
    PickAddMultiple(c, a, 8 * |digits| + 11 - ct, 0, Val(digits) * Pow2(11 - ct));
  }

  lemma ShiftBelow(y: nat, bound: nat, n: nat, ct: nat)
    requires y < bound * Pow2(n)
    ensures y * Pow2(ct) < bound * Pow2(n + ct)
  {
    MulLt(y, bound * Pow2(n), Pow2(ct));
    Pow2Add(n, ct);
    MulShuffle(bound, Pow2(n), Pow2(ct));
  }

  lemma ShiftMultiple(y: nat, ct: nat)
    requires y % 0x8000 == 0
    ensures y * Pow2(ct) % 0x800 == 0
  {
    var q := y / 0x8000;
    MulShuffle(q, 0x8000, Pow2(ct));
    assert y * Pow2(ct) == (q * Pow2(ct) * 16) * 0x800;
  }

  /** The chosen value shifted up fits the register and has eleven zero bits. */
  lemma ChosenRange(digits: seq<byte>, c: nat, a: nat, ct: nat)
    requires 0 < ct <= 11 && 0x8000 <= a <= 0x1_0000 && Bounded(digits, c, a, ct)
    ensures Pick(Interval(c, a, 0)) * Pow2(ct) < 0x900_0000
    ensures Pick(Interval(c, a, 0)) * Pow2(ct) % 0x800 == 0
  {
    hide Pick;
    ShiftBelow(Pick(Interval(c, a, 0)), 9, 24 - ct, ct);
    ShiftMultiple(Pick(Interval(c, a, 0)), ct);
    Pow2Small();
  }

  /** While every digit is 0xFF the chosen value cannot carry either. */
  lemma NoFinalCarryIntoOnes(n: nat, c: nat, a: nat, ct: nat)
    requires 0 < ct <= 11 && 0x8000 <= a <= 0x1_0000 && Bounded(Repeat(255, n), c, a, ct)
    ensures Pick(Interval(c, a, 0)) * Pow2(ct) < 0x800_0000
  {
    hide Pick;
    OnesRoom(n, c, a, ct);
    hide Bounded;
    ShiftBelow(Pick(Interval(c, a, 0)), 1, 27 - ct, ct);
    Pow2Small();
  }

  lemma ScaleBoth(v: nat, y: nat, m: nat, n: nat, e: nat)
    requires v * Pow2(m) == y * Pow2(n)
    ensures v * Pow2(m + e) == y * Pow2(n + e)
  {
    Pow2Add(m, e);
    Pow2Add(n, e);
    MulShuffle(v, Pow2(m), Pow2(e));
    MulShuffle(y, Pow2(n), Pow2(e));
  }

  /** Two more digits taken from the register complete the terminating code. */
  lemma FinalDigits(digits: seq<byte>, full: seq<byte>, c: nat, a: nat, ct: nat)
    requires 0 < ct <= 11 && 0x8000 <= a <= 0x1_0000 && |full| == |digits| + 2
    requires Val(full) * 0x800
          == Val(digits) * 0x800_0000 + Pick(Interval(c, a, 0)) * Pow2(ct)
    ensures var iv := Denoted(digits, c, a, ct);
      Val(full) * Pow2(16 + iv.shift) == Pick(iv) * Pow2(8 * |full|)
  {
    hide Pick;
    var iv, v := Denoted(digits, c, a, ct), Val(digits);
    PickInRegister(digits, c, a, ct);
    assert Val(full) * Pow2(11) == Pick(iv) * Pow2(ct) by {
      Pow2Add(27 - ct, ct);
      Pow2Small();
      MulShuffle(v, Pow2(27 - ct), Pow2(ct));
      AddMul(v * Pow2(27 - ct), Pick(Interval(c, a, 0)), Pow2(ct));
    }
    ScaleBoth(Val(full), Pick(iv), 11, ct, 8 * |digits| + 16 - ct);
    assert 11 + (8 * |digits| + 16 - ct) == 16 + iv.shift;
    assert ct + (8 * |digits| + 16 - ct) == 8 * |full|;
  }

  lemma AddMul(a: nat, b: nat, k: nat)
    ensures (a + b) * k == a * k + b * k
  {
  }

  lemma SplitValue(v: nat, d: nat, f: nat, hi: byte, lo: byte)
    requires v < 0x900_0000 && v % 0x800 == 0
    requires f == d + (if v < 0x800_0000 then 0 else 1)
    requires hi == v / 0x8_0000 % 0x100 && lo == v / 0x800 % 0x100
    ensures ((f * 256 + hi) * 256 + lo) * 0x800 == d * 0x800_0000 + v
  {
  }

  /** The same with the carry already resolved into `fixed`. */
  lemma FullCode(digits: seq<byte>, fixed: seq<byte>, hi: byte, lo: byte,
                 c: nat, a: nat, ct: nat)
    requires 0 < ct <= 11 && 0x8000 <= a <= 0x1_0000 && Bounded(digits, c, a, ct)
    requires var v := Pick(Interval(c, a, 0)) * Pow2(ct);
      && |fixed| == |digits|
      && Val(fixed) == Val(digits) + (if v < 0x800_0000 then 0 else 1)
      && hi == v / 0x8_0000 % 0x100 && lo == v / 0x800 % 0x100
    ensures var iv, full := Denoted(digits, c, a, ct), fixed + [hi, lo];
      Val(full) * Pow2(16 + iv.shift) == Pick(iv) * Pow2(8 * |full|)
  {
    hide Pick, Pow2, Bounded, Denoted;
    ChosenRange(digits, c, a, ct);
    var full := fixed + [hi, lo];
    assert full == (fixed + [hi]) + [lo];
    ValSnoc(fixed, hi);
    ValSnoc(fixed + [hi], lo);
    SplitValue(Pick(Interval(c, a, 0)) * Pow2(ct), Val(digits), Val(fixed), hi, lo);
    FinalDigits(digits, full, c, a, ct);
  }

  lemma PickIs(c: nat, a: nat)
    requires 0x8000 <= a <= 0x1_0000
    ensures var temp := (a - 1 + c) / 0x1_0000 * 0x1_0000;
      Pick(Interval(c, a, 0)) == if temp < c then temp + 0x8000 else temp
  {
  }

  lemma DropFinalZeros(code: seq<byte>, k: nat, p: nat, y: nat)
    requires Val(code + Repeat(0, k)) * p == y * Pow2(8 * |code + Repeat(0, k)|)
    ensures Val(code) * p == y * Pow2(8 * |code|)
  {
    ValAppend(code, Repeat(0, k));
    ValZeros(k);
    var z := Pow2(8 * k);
    Pow2Add(8 * |code|, 8 * k);
    MulShuffle(Val(code), z, p);
    MulShuffle(y, Pow2(8 * |code|), z);
    assert Val(code) * p * z == y * Pow2(8 * |code|) * z;
    MulCompare(Val(code) * p, y * Pow2(8 * |code|), z);
  }

  lemma EmptySegment(stats: Stats)
    requires ValidStats(stats)
    ensures DigitsOf([], 0, -1, 0) == [] && Stuff([]) == []
    ensures Bounded([], 0, 0x1_0000, 11) && Denoted([], 0, 0x1_0000, 11) == START
    ensures Run(Coder(START, stats), []) == Coder(START, stats) && LegalRun([])
  {
    Pow2Small();
  }

  predicate NoFinalZero(s: seq<byte>)
  {
    s != [] ==> s[|s| - 1] != 0
  }

  // ------------------------------------------------------------- the encoder

  class ArithEncoder {
    var c: nat           // base of the coding interval
    var a: nat           // its width
    var sc: nat          // stacked 0xFF digits
    var zc: nat          // pending 0x00 digits
    var ct: nat          // shifts until the next byte
    var buffer: int      // latest digit other than 0xFF, or -1
    var stats: Stats
    var out: seq<byte>   // bytes handed to the destination

    ghost var before: seq<byte>   // what `out` held when the segment began
    ghost var emitted: seq<byte>  // digits of the segment already in `out`
    ghost var iv: Interval             // what digits and registers denote
    ghost var initial: Stats           // bins when the segment began
    ghost var history: seq<Decision>   // decisions coded since

    ghost predicate OutputInSync()
      reads `buffer, `emitted, `zc, `out, `before
    {
      && -1 <= buffer < 255
      && (buffer == -1 ==> emitted == [] && zc == 0)
      && NoFinalZero(emitted)
      && out == before + Stuff(emitted)
    }

    ghost function Digits(): seq<byte>
      reads `buffer, `emitted, `zc, `out, `before, `sc
      requires OutputInSync()
    {
      DigitsOf(emitted, zc, buffer, sc)
    }

    /** Holds also in the middle of renormalization. */
    ghost predicate InFlight()
      reads `buffer, `emitted, `zc, `out, `before, `sc, `c, `a, `ct, `iv
    {
      && OutputInSync() && ct <= 11 && 0 < a <= 0x1_0000
      && Bounded(Digits(), c, a, ct) && Denoted(Digits(), c, a, ct) == iv
    }

    ghost predicate Ready()
      reads `buffer, `emitted, `zc, `out, `before, `sc, `c, `a, `ct, `iv
    {
      InFlight() && 0 < ct && 0x8000 <= a
    }

    /** The interval and the bins are those of the simple form after `history`. */
    ghost predicate Recorded()
      reads `iv, `stats, `initial, `history
    {
      && ValidStats(initial) && LegalRun(history)
      && Coder(iv, stats) == Run(Coder(START, initial), history)
    }

    ghost predicate Valid()
      reads this
    {
      Ready() && Recorded()
    }

    /** start_pass: an empty segment at the end of `prior`, bins as given. */
    constructor (prior: seq<byte>, zeroed: Stats)
      requires ValidStats(zeroed)
      ensures Valid() && initial == zeroed && history == []
      ensures out == before == prior
    {
      c, a, sc, zc, ct, buffer := 0, 0x1_0000, 0, 0, 11, -1;
      stats, out, before, emitted := zeroed, prior, prior, [];
      initial, history, iv := zeroed, [], START;
      new;
      EmptySegment(stats);
    }

    method EmitByte(val: byte)
      modifies `out
      ensures out == old(out) + [val]
    {
      out := out + [val];
    }

    /** Write the pending zero digits. */
    method FlushZeros()
      requires out == before + Stuff(emitted)
      modifies `out, `zc, `emitted
      ensures zc == 0 && emitted == old(emitted) + Repeat(0, old(zc))
      ensures out == before + Stuff(emitted)
    {
      hide Stuff;
      while zc > 0
        invariant zc <= old(zc) && emitted == old(emitted) + Repeat(0, old(zc) - zc)
        invariant out == before + Stuff(emitted)
      {
        EmitByte(0x00);
        StuffSnoc(emitted, 0);
        emitted := emitted + [0];
        zc := zc - 1;
      }
    }

    /** Write one digit, stuffed. */
    method EmitDigit(val: byte)
      requires out == before + Stuff(emitted)
      modifies `out, `emitted
      ensures emitted == old(emitted) + [val] && out == before + Stuff(emitted)
    {
      hide Stuff;
      EmitByte(val);
      if val == 0xFF {
        EmitByte(0x00);
      }
      StuffSnoc(emitted, val);
      emitted := emitted + [val];
    }

    /** Write the stacked 0xFF digits. */
    method FlushStack()
      requires out == before + Stuff(emitted)
      modifies `out, `sc, `emitted
      ensures sc == 0 && emitted == old(emitted) + Repeat(255, old(sc))
      ensures out == before + Stuff(emitted)
    {
      hide Stuff;
      while sc > 0
        invariant sc <= old(sc) && emitted == old(emitted) + Repeat(255, old(sc) - sc)
        invariant out == before + Stuff(emitted)
      {
        EmitDigit(0xFF);
        sc := sc - 1;
      }
    }

    /** The carry reaches the held digit, which is written; the stacked 0xFF
        digits turn into pending zeros. */
    method ResolveCarry()
      requires OutputInSync() && 0 <= buffer
      modifies `out, `zc, `sc, `emitted
      ensures out == before + Stuff(emitted) && NoFinalZero(emitted) && sc == 0
      ensures |emitted + Repeat(0, zc)| == |old(Digits())|
      ensures Val(emitted + Repeat(0, zc)) == Val(old(Digits())) + 1
    {
      hide Stuff, Val;
      CarryDigits(emitted + Repeat(0, zc), buffer, sc);
      FlushZeros();
      EmitDigit(buffer + 1);
      zc := zc + sc;
      sc := 0;
    }

    /** No carry can come any more: write the held digit and the stack, or keep
        a zero digit pending. */
    method ResolveNoCarry()
      requires OutputInSync()
      modifies `out, `zc, `sc, `emitted
      ensures out == before + Stuff(emitted) && NoFinalZero(emitted) && sc == 0
      ensures emitted + Repeat(0, zc) == old(Digits())
    {
      hide Stuff;
      if buffer == 0 {
        zc := zc + 1;
      } else if buffer >= 0 {
        FlushZeros();
        EmitDigit(buffer);
      }
      assert emitted + Repeat(0, zc) + Repeat(255, sc) == old(Digits());
      if sc > 0 {
        FlushZeros();
        FlushStack();
      }
    }

    /** Append the nine-bit `temp`, a digit and possibly a carry, to the digits. */
    method PutDigit(temp: nat)
      requires OutputInSync() && temp < 0x120 && (temp > 0xFF ==> 0 <= buffer)
      modifies `buffer, `zc, `sc, `out, `emitted
      ensures OutputInSync() && |Digits()| == |old(Digits())| + 1
      ensures Val(Digits()) == Val(old(Digits())) * 256 + temp
    {
      hide Val, Stuff, DigitsOf;
      ghost var digits := Digits();
      if temp > 0xFF {
        ResolveCarry();
        buffer := temp - 0x100;
        OneMore(emitted, zc, buffer);
      } else if temp == 0xFF {
        StackOne(emitted, zc, buffer, sc);
        sc := sc + 1;
      } else {
        ResolveNoCarry();
        buffer := temp;
        OneMore(emitted, zc, buffer);
      }
    }

    /** Move the byte at the top of `c` out of the register. */
    method ByteOut()
      requires InFlight() && ct == 0
      modifies `c, `ct, `buffer, `zc, `sc, `out, `emitted
      ensures InFlight() && ct == 8
    {
      hide Pow2, Val, Bounded, Denoted, Stuff, DigitsOf;
      ghost var digits := Digits();
      TopByteRange(digits, c, a);
      if c >= 0x800_0000 && buffer == -1 {
        OnlyOnes(sc);
        OnesRoom(sc, c, a, 0);
        Pow2Small();
      }
      PutDigit(c / 0x8_0000);
      ByteMoved(digits, Digits(), c, a);
      c := c % 0x8_0000;
      ct := ct + 8;
    }

    /** Renormalization: double until the width is normal again. */
    method Renormalize()
      requires InFlight() && 0 < ct && a < 0x8000
      modifies `c, `a, `ct, `buffer, `zc, `sc, `out, `emitted, `iv
      ensures Ready() && iv == Renorm(old(iv))
    {
      hide Pow2, Val, Bounded, Denoted, Stuff, DigitsOf;
      var small := true;
      while small
        invariant InFlight() && 0 < ct
        invariant Renorm(iv) == Renorm(old(iv))
        invariant small == (a < 0x8000)
        decreases 0x1_0000 - a
      {
        ShiftRegisters(Digits(), c, a, ct);
        a := a * 2;
        c := c * 2;
        ct := ct - 1;
        iv := Double(iv);
        if ct == 0 {
          ByteOut();
        }
        small := a < 0x8000;
      }
    }

    /** Code one decision on the registers. */
    method Code(bin: Bin, val: nat)
      requires Ready() && ValidStats(stats) && Legal(bin) && val < 2
      modifies `c, `a, `ct, `buffer, `zc, `sc, `stats, `out, `emitted, `iv
      ensures Ready() && Coder(iv, stats) == Step(old(Coder(iv, stats)), Decision(bin, val))
    {
      hide Pow2, Val, Bounded, Denoted, Stuff, RowAt, Renorm, DigitsOf, ValidStats;
      StatsUpdate(stats, bin, 0);
      var sv := stats[bin];
      var qe := Qe(sv);
      NarrowRegisters(Digits(), c, a, ct, qe);
      iv := Narrow(iv, qe, TakesUpper(a, qe, val != Mps(sv)));
      a := a - qe;
      if val != sv / 128 {
        if a >= qe {
          c := c + a;
          a := qe;
        }
        stats := stats[bin := AfterLps(sv)];
        Renormalize();
      } else if a < 0x8000 {
        if a < qe {
          c := c + a;
          a := qe;
        }
        stats := stats[bin := AfterMps(sv)];
        Renormalize();
      }
    }

    method Encode(bin: Bin, val: nat)
      requires Valid() && Legal(bin) && val < 2
      modifies `c, `a, `ct, `buffer, `zc, `sc, `stats, `out, `emitted, `history, `iv
      ensures Valid() && history == old(history) + [Decision(bin, val)]
    {
      hide Pow2, Val, Bounded, Denoted, Stuff, Step, Run, DigitsOf, ValidStats, LegalRun;
      RunSnoc(Coder(START, initial), history, Decision(bin, val));
      Code(bin, val);
      history := history + [Decision(bin, val)];
    }

    /** Termination (T.81 section D.1.8): choose the value with the most trailing
        zero bits, write what it fixes and drop the final zero digits. */
    method FinishPass()
      requires Ready()
      modifies `c, `zc, `sc, `out, `emitted
      ensures IsCode(iv, emitted) && out == before + Stuff(emitted)
    {
      hide Pow2, Val, Bounded, Denoted, Stuff, Pick, DigitsOf;
      ghost var digits, c0 := Digits(), c;
      ChosenRange(digits, c, a, ct);
      PickIs(c, a);
      var temp := (a - 1 + c) / 0x1_0000 * 0x1_0000;
      if temp < c {
        c := temp + 0x8000;
      } else {
        c := temp;
      }
      c := c * Pow2(ct);
      if c >= 0x800_0000 {
        if buffer == -1 {
          OnlyOnes(sc);
          NoFinalCarryIntoOnes(sc, c0, a, ct);
        }
        ResolveCarry();
      } else {
        ResolveNoCarry();
      }
      FullCode(digits, emitted + Repeat(0, zc), c / 0x8_0000 % 0x100, c / 0x800 % 0x100, c0, a, ct);
      FinalBytes();
    }

    /** Write the last two digits, unless they and all pending ones are zero. */
    method FinalBytes()
      requires out == before + Stuff(emitted) && NoFinalZero(emitted)
      requires 0x8000 <= iv.width <= 0x1_0000
      requires var full := emitted + Repeat(0, zc) + [c / 0x8_0000 % 0x100, c / 0x800 % 0x100];
        Val(full) * Pow2(16 + iv.shift) == Pick(iv) * Pow2(8 * |full|)
      modifies `zc, `out, `emitted
      ensures IsCode(iv, emitted) && out == before + Stuff(emitted)
    {
      hide Pow2, Val, Stuff, Pick;
      var hi, lo := c / 0x8_0000 % 0x100, c / 0x800 % 0x100;
      ghost var full := emitted + Repeat(0, zc) + [hi, lo];
      if hi != 0 || lo != 0 {
        FlushZeros();
        EmitDigit(hi);
        if lo != 0 {
          EmitDigit(lo);
        }
      }
      ghost var k := |full| - |emitted|;
      assert full == emitted + Repeat(0, k);
      DropFinalZeros(emitted, k, Pow2(16 + iv.shift), Pick(iv));
    }

    /** Finish the segment, write a restart marker and start the next segment
        with the given statistics areas zeroed. */
    method EmitRestart(restartNum: nat, areas: set<Area>) returns (ghost code: seq<byte>)
      requires Valid() && restartNum < 8
      modifies this
      ensures IsCode(Run(Coder(START, old(initial)), old(history)).iv, code)
      ensures out == old(before) + Stuff(code) + [0xFF, 0xD0 + restartNum]
      ensures Valid() && before == out && history == []
      ensures initial == ZeroAreas(old(stats), areas)
    {
      hide Bounded, Denoted, ValidStats, Stuff, DigitsOf, IsCode, Run, ZeroAreas;
      StatsKept();
      FinishPass();
      code := emitted;
      EmitByte(0xFF);
      EmitByte(0xD0 + restartNum);
      ZeroAreasValid(stats, areas);
      StartSegment(ZeroAreas(stats, areas));
    }

    /** Coding keeps the bins valid. */
    lemma StatsKept()
      requires Recorded()
      ensures ValidStats(initial) && LegalRun(history)
      ensures stats == Run(Coder(START, initial), history).stats && ValidStats(stats)
    {
    }

    lemma Kept()
      requires Valid()
      ensures Ready() && ValidStats(initial) && LegalRun(history)
      ensures Normal(iv) && iv == Run(Coder(START, initial), history).iv
      ensures stats == Run(Coder(START, initial), history).stats && ValidStats(stats)
    {
      StatsKept();
    }

    /** Reset the coding variables for an empty segment at the end of `out`. */
    method StartSegment(zeroed: Stats)
      requires ValidStats(zeroed)
      modifies this
      ensures Valid() && before == out == old(out) && history == []
      ensures initial == zeroed
    {
      hide *;
      c, a, sc, zc, ct, buffer, stats := 0, 0x1_0000, 0, 0, 11, -1, zeroed;
      before, emitted, initial, history, iv := out, [], zeroed, [], START;
      Begun();
    }

    /** The registers of an empty segment. */
    lemma Begun()
      requires c == sc == zc == 0 && a == 0x1_0000 && ct == 11 && buffer == -1 && out == before && emitted == []
      requires ValidStats(initial) && stats == initial && history == [] && iv == START
      ensures Valid()
    {
      hide Bounded, Denoted, ValidStats, Stuff, DigitsOf, Run, LegalRun, Pow2, Val;
      EmptySegment(initial);
    }
  }
}
