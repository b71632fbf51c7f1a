/** The arithmetic decoder's registers and input (jdarith.c). */
module ArithDecoding {
  import opened Powers
  import opened Bytes
  import opened ProbabilityTable
  import opened IntervalCoder

  /** The first `n` digits of `code`, continued with zeros. */
  function Prefix(code: seq<byte>, n: nat): (p: seq<byte>)
    ensures |p| == n
  {
    if n <= |code| then code[..n] else code + Repeat(0, n - |code|)
  }

  lemma PrefixNext(code: seq<byte>, n: nat)
    ensures Val(Prefix(code, n + 1))
         == Val(Prefix(code, n)) * 256 + (if n < |code| then code[n] else 0)
  {
    if n < |code| {
      assert code[..n + 1] == code[..n] + [code[n]];
      ValSnoc(code[..n], code[n]);
    } else {
      assert Prefix(code, n) == code + Repeat(0, n - |code|);
      assert Prefix(code, n + 1) == Prefix(code, n) + [0];
      ValSnoc(Prefix(code, n), 0);
    }
  }

  /** v = p * z + r with r < z lies above b * z exactly when p does above b. */
  lemma FloorCompare(v: nat, p: nat, r: nat, z: nat, w: nat, b: nat)
    requires v == p * z + r && r < z && 0 < w
    ensures b * (z * w) <= v * w <==> b <= p
  {
    MulShuffle(b, z, w);
    MulCompare(b * z, v, w);
    if b <= p {
      MulLe(b, p, z);
    } else {
      MulLe(p + 1, b, z);
    }
  }

  /** Comparing whole codes with 2^(16 + shift + ct) = 256^n. */
  lemma AtLeastScaled(code: seq<byte>, n: nat, bound: nat, shift: nat, ct: nat)
    requires 8 * n == 16 + shift + ct
    ensures AtLeast(code, bound, shift)
       <==> bound * Pow2(ct) * Pow2(8 * |code|) <= Val(code) * Pow2(8 * n)
  {
    var v, w := Val(code), Pow2(8 * |code|);
    MulCompare(bound * w, v * Pow2(16 + shift), Pow2(ct));
    Pow2Add(16 + shift, ct);
    MulShuffle(v, Pow2(16 + shift), Pow2(ct));
    MulShuffle(bound, w, Pow2(ct));
  }

  lemma PrefixFloor(code: seq<byte>, n: nat, b: nat)
    ensures b * Pow2(8 * |code|) <= Val(code) * Pow2(8 * n) <==> b <= Val(Prefix(code, n))
  {
    hide Val, Pow2, Repeat;
    if n <= |code| {
      assert code == code[..n] + code[n..];
      PrefixFloorInside(code[..n], code[n..], b);
    } else {
      PrefixFloorBeyond(code, n, b);
    }
  }

  lemma PrefixFloorInside(p: seq<byte>, s: seq<byte>, b: nat)
    ensures b * Pow2(8 * |p + s|) <= Val(p + s) * Pow2(8 * |p|) <==> b <= Val(p)
  {
    hide Val, Pow2;
    ValAppend(p, s);
    ValBound(s);
    Pow2Add(8 * |s|, 8 * |p|);
    assert Pow2(8 * |p + s|) == Pow2(8 * |s|) * Pow2(8 * |p|);
    FloorCompare(Val(p + s), Val(p), Val(s), Pow2(8 * |s|), Pow2(8 * |p|), b);
  }

  lemma PrefixFloorBeyond(code: seq<byte>, n: nat, b: nat)
    requires |code| < n
    ensures b * Pow2(8 * |code|) <= Val(code) * Pow2(8 * n) <==> b <= Val(Prefix(code, n))
  {
    var more := n - |code|;
    ValAppend(code, Repeat(0, more));
    ValZeros(more);
    Pow2Add(8 * more, 8 * |code|);
    hide Val, Pow2, Repeat;
    MulShuffle(Val(code), Pow2(8 * more), Pow2(8 * |code|));
    MulCompare(b, Val(code) * Pow2(8 * more), Pow2(8 * |code|));
  }

  /** Enough leading digits decide a comparison with the whole code. */
  lemma PrefixCompare(code: seq<byte>, n: nat, bound: nat, shift: nat, ct: nat)
    requires 8 * n == 16 + shift + ct
    ensures AtLeast(code, bound, shift) <==> bound * Pow2(ct) <= Val(Prefix(code, n))
  {
    AtLeastScaled(code, n, bound, shift, ct);
    PrefixFloor(code, n, bound * Pow2(ct));
  }

  // ------------------------------------------------------ what registers mean

  /** `c` is the part of the digits read, `p`, that lies above the interval base
      `low`, both taken with `ct` more bits; and it lies inside the interval. */
  ghost predicate Offset(p: nat, low: nat, c: nat, a: nat, ct: nat)
  {
    c + low * Pow2(ct) == p && c < a * Pow2(ct)
  }

  lemma OffsetShift(p: nat, low: nat, c: nat, a: nat, ct: nat)
    requires 0 < ct && Offset(p, low, c, a, ct)
    ensures Offset(p, 2 * low, c, 2 * a, ct - 1)
  {
    MulShuffle(low, 2, Pow2(ct - 1));
    MulShuffle(a, 2, Pow2(ct - 1));
  }

  lemma OffsetRefill(p: nat, low: nat, c: nat, a: nat, data: byte)
    requires Offset(p, low, c, a, 0)
    ensures Offset(p * 256 + data, 2 * low, c * 256 + data, 2 * a, 7)
  {
    Pow2Small();
  }

  lemma OffsetStart(digits: seq<byte>)
    requires |digits| == 2
    ensures Offset(Val(digits), 0, Val(digits), 0x1_0000, 0)
  {
    ValBound(digits);
    Pow2Small();
  }

  /** The decision for the part above or below `below` units of the interval. */
  lemma OffsetDecide(p: nat, low: nat, c: nat, a: nat, ct: nat, below: nat)
    requires below <= a && Offset(p, low, c, a, ct)
    ensures below * Pow2(ct) <= c <==> (low + below) * Pow2(ct) <= p
    ensures if below * Pow2(ct) <= c then
              Offset(p, low + below, c - below * Pow2(ct), a - below, ct)
            else Offset(p, low, c, below, ct)
  {
    assert (low + below) * Pow2(ct) == low * Pow2(ct) + below * Pow2(ct);
    assert (a - below) * Pow2(ct) == a * Pow2(ct) - below * Pow2(ct);
  }

  /** Registers and digits in step with the exact interval `iv`; `ct` is -16 or
      -8 until the first two digits are in. */
  ghost predicate InStep(code: seq<byte>, got: nat, iv: Interval, c: nat, a: nat, ct: int)
  {
    if ct < 0 then
      && iv == START && a == 0 && -16 <= ct && ct == 8 * got - 16
      && c == Val(Prefix(code, got))
    else
      && ct < 8 && 0 < a == iv.width <= 0x1_0000
      && 8 * got == 16 + iv.shift + ct
      && Offset(Val(Prefix(code, got)), iv.low, c, a, ct)
  }

  lemma InStepRange(code: seq<byte>, got: nat, iv: Interval, c: nat, a: nat, ct: int)
    requires InStep(code, got, iv, c, a, ct)
    ensures 0 < iv.width <= 0x1_0000 && -16 <= ct < 8 && a <= 0x1_0000
    ensures ct < 0 ==> a == 0 && iv == START && (ct == -16 || ct == -8)
    ensures 0 <= ct ==> a == iv.width
  {
  }

  lemma InStepShift(code: seq<byte>, got: nat, iv: Interval, c: nat, a: nat, ct: nat)
    requires 0 < ct && a < 0x8000 && InStep(code, got, iv, c, a, ct)
    ensures InStep(code, got, Double(iv), c, 2 * a, ct - 1)
  {
    OffsetShift(Val(Prefix(code, got)), iv.low, c, a, ct);
  }

  lemma InStepRefill(code: seq<byte>, got: nat, iv: Interval, c: nat, a: nat, ct: int, data: byte)
    requires ct <= 0 && a < 0x8000 && InStep(code, got, iv, c, a, ct)
    requires Val(Prefix(code, got + 1)) == Val(Prefix(code, got)) * 256 + data
    ensures ct == -16 ==> InStep(code, got + 1, START, c * 256 + data, 0, -8)
    ensures ct == -8 ==> InStep(code, got + 1, START, c * 256 + data, 0x1_0000, 0)
    ensures ct == 0 ==> InStep(code, got + 1, Double(iv), c * 256 + data, 2 * a, 7)
  {
    if ct == -8 {
      OffsetStart(Prefix(code, got + 1));
    } else if ct == 0 {
      OffsetRefill(Val(Prefix(code, got)), iv.low, c, a, data);
    }
  }

  lemma InStepDecide(code: seq<byte>, got: nat, iv: Interval, c: nat, a: nat, ct: nat, qe: nat)
    requires 0 < qe < a && InStep(code, got, iv, c, a, ct)
    ensures AtLeast(code, iv.low + (a - qe), iv.shift) <==> (a - qe) * Pow2(ct) <= c
    ensures if (a - qe) * Pow2(ct) <= c then
              InStep(code, got, Narrow(iv, qe, true), c - (a - qe) * Pow2(ct), qe, ct)
            else InStep(code, got, Narrow(iv, qe, false), c, a - qe, ct)
  {
    OffsetDecide(Val(Prefix(code, got)), iv.low, c, a, ct, a - qe);
    PrefixCompare(code, got, iv.low + (a - qe), iv.shift, ct);
  }

  /** At most fifteen doublings are ever owed. */
  lemma {:induction false} RenormShift(iv: Interval, n: nat)
    requires 0 < iv.width <= 0x1_0000 && n <= 15 && 0x8000 <= iv.width * Pow2(n)
    ensures Renorm(iv).shift <= iv.shift + n
    decreases n
  {
    if iv.width < 0x8000 {
      assert n != 0 by { assert Pow2(0) == 1; }
      MulShuffle(2, iv.width, Pow2(n - 1));
      RenormShift(Double(iv), n - 1);
    }
  }

  /** Once the last decision is decoded the whole code has been read, although
      the renormalization after it has not been done: what follows the segment
      is next in the input. */
  lemma CodeConsumed(code: seq<byte>, got: nat, iv: Interval, c: nat, a: nat, ct: int)
    requires 0 < iv.width <= 0x1_0000 && InStep(code, got, iv, c, a, ct)
    requires IsCode(Renorm(iv), code)
    ensures |code| <= got
  {
    CodeLength(Renorm(iv), code);
    if ct < 0 {
      StartCode(code);
    } else {
      assert 0x8000 <= iv.width * Pow2(15) by { Pow2Small(); }
      RenormShift(iv, 15);
    }
  }

  lemma StartCode(code: seq<byte>)
    requires IsCode(START, code)
    ensures code == []
  {
    assert Pick(START) == 0;
    assert Val(code) == 0 by { MulCompare(0, Val(code), Pow2(16)); }
    if code != [] {
      LastDigit(code);
    }
  }

  class ArithDecoder {
    var c: nat            // code minus interval base, and buffered bits below
    var a: nat            // interval width, not renormalized yet
    var ct: int           // buffered bits left; -16 and -8 while filling
    var stats: Stats
    var src: seq<byte>
    var pos: nat
    var unread: byte      // marker met in the input, 0 if none

    ghost var code: seq<byte>   // all data bytes of the segment
    ghost var ending: Ending    // and what follows them
    ghost var got: nat          // digits taken from it, trailing zeros included
    ghost var iv: Interval             // renormalization may still be owed
    ghost var initial: Stats           // bins when the segment began
    ghost var history: seq<Decision>   // decisions decoded since

    ghost predicate InputInSync()
      reads `src, `pos, `unread, `code, `ending, `got
    {
      && pos <= |src|
      && (unread == 0 ==> got <= |code| && Payload(src[pos..]) == code[got..]
                          && End(src[pos..]) == ending)
      && (unread != 0 ==> |code| <= got && ending == At(unread, src[pos..]))
    }

    ghost predicate Ready()
      reads `src, `pos, `unread, `code, `ending, `got, `ct, `a, `iv, `c
    {
      InputInSync() && InStep(code, got, iv, c, a, ct) && 0 < iv.width <= 0x1_0000
    }

    ghost function Current(): Coder
      reads `iv, `stats
      requires 0 < iv.width <= 0x1_0000
    {
      Coder(Renorm(iv), stats)
    }

    /** Interval and bins are those of the simple form after `history`. */
    ghost predicate Valid()
      reads this
    {
      && Ready() && ValidStats(initial) && ValidStats(stats) && LegalRun(history)
      && Current() == Run(Coder(START, initial), history)
    }

    /** The coding state both sides share. */
    ghost function Coded(): (k: Coder)
      reads this
      requires Valid()
      ensures ValidCoder(k)
    {
      Run(Coder(START, initial), history)
    }

    /** start_pass: read a segment from the front of `input`. */
    constructor (input: seq<byte>, zeroed: Stats)
      requires ValidStats(zeroed)
      ensures Valid() && initial == zeroed && history == []
      ensures code == Payload(input) && ending == End(input)
      ensures src == input && pos == 0 && unread == 0
    {
      c, a, ct, stats, src, pos, unread := 0, 0, -16, zeroed, input, 0, 0;
      code, ending, got, iv := Payload(input), End(input), 0, START;
      initial, history := zeroed, [];
      new;
      assert input[0..] == input;
    }

    /** Next data byte: zeros once a marker has been met; refused at the end of
        the input. */
    method GetData() returns (ok: bool, data: byte)
      requires InputInSync()
      modifies `pos, `unread, `got
      ensures ok ==> InputInSync() && got == old(got) + 1
      ensures ok ==> Val(Prefix(code, got)) == Val(Prefix(code, old(got))) * 256 + data
      ensures !ok ==> ending == Cut
    {
      hide Fetch, Val, Payload, End;
      PrefixNext(code, got);
      data := 0;
      if unread == 0 {
        ghost var rest := src[pos..];
        PayloadStep(rest);
        var item := ReadItem(src, |src|, pos);
        if item == Exhausted {
          return false, 0;
        }
        pos := pos + item.used;
        assert rest[item.used..] == src[pos..];
        match item {
          case Data(value, _) =>
            data := value;
            assert code[got..][1..] == code[got + 1..];
          case Marker(marker, _) =>
            unread := marker;
            assert code[got..] == [];
        }
      }
      got := got + 1;
      ok := true;
    }

    /** One shift of the registers, with a byte of input when no buffered bit is left. */
    method Shift() returns (ok: bool)
      requires Ready() && a < 0x8000
      modifies `c, `a, `ct, `pos, `unread, `got, `iv
      ensures ok ==> Ready() && iv == if old(ct) < 0 then START else Double(old(iv))
      ensures ok && old(ct) < 0 ==> old(ct) < ct && old(iv) == START
      ensures ok && 0 <= old(ct) ==> 0 <= ct
      ensures !ok ==> ending == Cut
    {
      hide Val, InStep, InputInSync;
      InStepRange(code, got, iv, c, a, ct);
      ghost var ct0, got0 := ct, got;
      ok := true;
      ct := ct - 1;
      if ct < 0 {
        var data;
        ok, data := GetData();
        if !ok {
          return;
        }
        InStepRefill(code, got0, iv, c, a, ct0, data);
        c := c * 256 + data;
        ct := ct + 8;
        if ct < 0 {
          ct := ct + 1;
          if ct == 0 {
            a := 0x8000;
          }
        }
      } else {
        InStepShift(code, got, iv, c, a, ct0);
      }
      a := a * 2;
      iv := if ct0 < 0 then START else Double(iv);
    }

    /** Renormalization and input (T.81 section D.2.6), owed from the last decision. */
    method Renormalize() returns (ok: bool)
      requires Ready()
      modifies `c, `a, `ct, `pos, `unread, `got, `iv
      ensures ok ==> Ready() && 0 <= ct && a == iv.width && iv == Renorm(old(iv))
      ensures !ok ==> ending == Cut
    {
      hide Val, InStep, InputInSync;
      InStepRange(code, got, iv, c, a, ct);
      while a < 0x8000
        invariant Ready() && Renorm(iv) == Renorm(old(iv))
        invariant -16 <= ct && (ct < 0 ==> a == 0) && (0 <= ct ==> a == iv.width)
        decreases if ct < 0 then 0x1_0000 - ct else 0x1_0000 - a
      {
        InStepRange(code, got, iv, c, a, ct);
        ok := Shift();
        if !ok {
          return;
        }
        InStepRange(code, got, iv, c, a, ct);
      }
      ok := true;
    }

    /** Decode one decision on the registers. */
    method Decide(bin: Bin) returns (ok: bool, bit: nat)
      requires Ready() && ValidStats(stats) && Legal(bin)
      modifies `c, `a, `ct, `pos, `unread, `got, `iv, `stats
      ensures ok ==> Ready() && ValidStats(stats) && 0 <= ct
      ensures ok ==> bit == DecodedBit(old(Current()), bin, code)
      ensures ok ==> Current() == Step(old(Current()), Decision(bin, bit))
      ensures !ok ==> ending == Cut
    {
      hide Val, Pow2, InStep, InputInSync, ValidStats, Renorm, RowAt, AfterLps, AfterMps, AtLeast,
        Step, DecodedBit;
      ok := Renormalize();
      bit := 0;
      if !ok {
        return;
      }
      StatsUpdate(stats, bin, 0);
      var sv := stats[bin];
      var qe := Qe(sv);
      StatsUpdate(stats, bin, AfterLps(sv));
      StatsUpdate(stats, bin, AfterMps(sv));
      DecideCases(Coder(iv, stats), bin, code);
      InStepDecide(code, got, iv, c, a, ct, qe);
      a := a - qe;
      var temp := a * Pow2(ct);
      iv := Narrow(iv, qe, c >= temp);
      if c >= temp {
        c := c - temp;
        if a < qe {
          a := qe;
          stats := stats[bin := AfterMps(sv)];
          bit := Mps(sv);
        } else {
          a := qe;
          stats := stats[bin := AfterLps(sv)];
          bit := 1 - Mps(sv);
        }
      } else {
        bit := Mps(sv);
        if a < 0x8000 {
          if a < qe {
            stats := stats[bin := AfterLps(sv)];
            bit := 1 - Mps(sv);
          } else {
            stats := stats[bin := AfterMps(sv)];
          }
        }
      }
    }

    /** One decision; refused when the input ends before a marker. */
    method Decode(bin: Bin) returns (ok: bool, bit: nat)
      requires Valid() && Legal(bin)
      modifies `c, `a, `ct, `pos, `unread, `got, `iv, `stats, `history
      ensures ok ==> Valid() && bit < 2 && history == old(history) + [Decision(bin, bit)]
      ensures ok ==> Read(old(Coded()), bin, code) == (bit, Coded())
      ensures !ok ==> ending == Cut
    {
      hide InStep, InputInSync, Step, Run, ValidStats, LegalRun, DecodedBit, Renorm;
      RunSnoc(Coder(START, initial), history, Decision(bin, 0));
      RunSnoc(Coder(START, initial), history, Decision(bin, 1));
      ok, bit := Decide(bin);
      history := history + [Decision(bin, bit)];
    }

    lemma Kept()
      requires Valid()
      ensures Coded().stats == stats && ValidStats(stats)
      ensures history == [] ==> Coded() == Coder(START, initial)
    {
    }

    /** The terminating code of the history has been read to its end. */
    lemma Consumed()
      requires Valid() && IsCode(Run(Coder(START, initial), history).iv, code)
      ensures |code| <= got
      ensures ending.At? ==> if unread == 0 then Payload(src[pos..]) == [] && End(src[pos..]) == ending
                             else unread == ending.code && src[pos..] == ending.rest
    {
      CodeConsumed(code, got, iv, c, a, ct);
    }

    /** process_restart: read the restart marker and start the next segment with
        the given statistics areas zeroed. */
    method ProcessRestart(restartNum: nat, areas: set<Area>)
      returns (ok: bool, discarded: nat)
      requires Valid() && restartNum < 8
      modifies this
      ensures ok ==> Valid() && initial == ZeroAreas(old(stats), areas) && history == []
      ensures ok ==> pos <= |src| && old(ending) == At(0xD0 + restartNum, src[pos..])
      ensures ok ==> code == Payload(src[pos..]) && ending == End(src[pos..]) && unread == 0
      ensures src == old(src)
      ensures old(ending).At? && old(ending).code == 0xD0 + restartNum ==> ok
      ensures (ok && IsCode(Run(Coder(START, old(initial)), old(history)).iv, old(code))) ==> discarded == 0
    {
      if IsCode(Run(Coder(START, initial), history).iv, code) && ending.At? {
        Consumed();
      }
      hide InStep, Run, IsCode, ValidStats, LegalRun, Payload, End, ZeroAreas;
      ZeroAreasValid(stats, areas);
      var read, p, marker;
      read, p, marker, discarded := ReadRestartMarker(src, |src|, pos, unread, restartNum);
      pos, unread, ok := p, marker, read.Found?;
      if ok {
        StartSegment(ZeroAreas(stats, areas));
      }
    }

    /** Reset the coding variables for a segment that starts at `pos`. */
    method StartSegment(zeroed: Stats)
      requires ValidStats(zeroed) && pos <= |src|
      modifies this
      ensures Valid() && initial == zeroed && history == []
      ensures code == Payload(src[pos..]) && ending == End(src[pos..]) && unread == 0
      ensures src == old(src) && pos == old(pos)
    {
      hide InStep, Run, ValidStats, LegalRun, Payload, End;
      SegmentStart(Payload(src[pos..]), zeroed);
      c, a, ct, stats, unread := 0, 0, -16, zeroed, 0;
      code, ending, got, iv := Payload(src[pos..]), End(src[pos..]), 0, START;
      initial, history := zeroed, [];
      assert code[0..] == code;
    }
  }

  lemma SegmentStart(code: seq<byte>, stats: Stats)
    requires ValidStats(stats)
    ensures InStep(code, 0, START, 0, 0, -16) && LegalRun([])
    ensures Coder(Renorm(START), stats) == Run(Coder(START, stats), [])
  {
  }
}
