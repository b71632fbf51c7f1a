/** Decoding the block of a progressive AC scan (jdhuff.c), with suspension: an attempt
    that runs out of input leaves a block from which the next attempt gives the same. */
module ProgressiveMcuDecoding {
  import opened Powers
  import opened BitStreams
  import opened Coefficients
  import opened HuffmanCode
  import opened HuffmanTables
  import opened HuffmanReader
  import opened HuffmanBlock
  import opened ProgressiveBand
  import opened HuffmanMcuDecoding

  // ----------------------------------------------- what suspended attempts leave

  lemma TouchedMeans(refine: bool, cur: Zigzag, base: Zigzag, final: Zigzag)
    ensures Touched(refine, cur, base, final) <==> TouchedBut(refine, cur, base, final, 64)
  {
    if Touched(refine, cur, base, final) {
      assert forall j :: 0 <= j < 64 ==> TouchedAt(refine, cur[j], base[j], final[j]);
    }
  }

  /** Except that at `e` only the zero or nonzero is the same. */
  predicate TouchedBut(refine: bool, cur: Zigzag, base: Zigzag, final: Zigzag, e: nat)
  {
    forall j :: 0 <= j < 64 ==>
      (j == e || cur[j] == base[j] || cur[j] == final[j]) && (refine ==> (cur[j] == 0 <==> base[j] == 0))
  }

  function Wraps(x: int): (w: int)
    ensures ToCoef(x) == x - w * 0x1_0000
  {
    (x + 0x8000) / 0x1_0000
  }

  lemma WrapProduct(w: int, p1: nat, h: nat)
    requires p1 * h == 0x8000
    ensures p1 * (-2 * (h * w)) == -(w * 0x1_0000)
  {
    MulShuffle(p1, h, w);
    MulShuffle(p1, -2, h * w);
  }

  lemma AddEven(q: int, n: int)
    ensures (q + -2 * n) % 2 == q % 2
  {
  }

  lemma ParityKept(x: int, p1: nat, h: nat)
    requires 0 < p1 && p1 * h == 0x8000
    ensures ToCoef(x) / p1 % 2 == x / p1 % 2
  {
    hide *;
    var w := Wraps(x);
    var n := h * w;
    WrapProduct(w, p1, h);
    var k := -2 * n;
    SumIs(x, p1, k);
    assert ToCoef(x) == x + p1 * k;
    AddEven(x / p1, n);
  }

  lemma NextParity(v: int, p1: nat, up: bool)
    requires 0 < p1
    ensures (if up then v + p1 else v - p1) / p1 == v / p1 + if up then 1 else -1
  {
    SumIs(v, p1, if up then 1 else -1);
  }

  lemma BitSet(v: int, p1: nat, h: nat)
    requires 0 < p1 && p1 * h == 0x8000 && !HasBit(v, p1)
    ensures HasBit(ToCoef(if v >= 0 then v + p1 else v - p1), p1)
  {
    hide ToCoef;
    NextParity(v, p1, v >= 0);
    ParityKept(if v >= 0 then v + p1 else v - p1, p1, h);
  }

  /** A correction that has been made already is not made again. */
  lemma CorrectTwice(v: int, b: bit, p1: nat, h: nat)
    requires 0 < p1 && p1 * h == 0x8000
    ensures Correct(Correct(v, b, p1), b, p1) == Correct(v, b, p1)
  {
    hide ToCoef, HasBit;
    if !HasBit(v, p1) {
      BitSet(v, p1, h);
    }
  }

  lemma SumIs(v: int, p: nat, k: int)
    requires 0 < p
    ensures (v + p * k) / p == v / p + k
  {
    var q, r := v / p, v % p;
    AddProduct(q, k, p);
    QuotientExact(v + p * k, p, q + k, r);
  }

  lemma QuotientExact(x: int, p: nat, q: int, r: int)
    requires 0 <= r < p && x == q * p + r
    ensures x / p == q
  {
    var a := x / p;
    if a < q {
      MulLe(a + 1, q, p);
    } else if q < a {
      MulLe(q + 1, a, p);
    }
  }

  /** A coefficient that is not zero stays so, and fits. */
  lemma CorrectNonzero(v: int, b: bit, p1: nat)
    requires v != 0 && InCoef(v) && 0 < p1 <= 0x2000
    ensures Correct(v, b, p1) != 0 && InCoef(Correct(v, b, p1))
  {
  }

  lemma {:induction false} SkipBelow(refine: bool, b: Zigzag, k: nat, r: nat, se: nat, p1: nat, s: seq<bit>, pos: nat)
    requires 0 < p1 && se < 64
    ensures var (c, k1, _) := Skip(refine, b, k, r, se, p1, s, pos);
      && (forall j :: 0 <= j < 64 && (j < k || k1 <= j) ==> c[j] == b[j])
      && (refine && k <= se ==> k1 <= se + 1 && (k1 <= se ==> b[k1] == 0))
    decreases se + 1 - k
  {
    hide Correct;
    if refine && k <= se {
      if b[k] != 0 {
        SkipBelow(refine, b[k := Correct(b[k], BitAt(s, pos), p1)], k + 1, r, se, p1, s, pos + 1);
      } else if r != 0 {
        SkipBelow(refine, b, k + 1, r - 1, se, p1, s, pos);
      }
    }
  }

  lemma {:induction false} BandBelow(refine: bool, t: Table, b: Zigzag, k: nat, se: nat, p1: nat, s: seq<bit>, pos: nat)
    requires 0 < p1 && se < 64 && WellFormed(t) && Upto(t.bits, 16) <= 256
    ensures forall j :: 0 <= j < 64 && j < k ==> Band(refine, t, b, k, se, p1, s, pos).0[j] == b[j]
    decreases se + 1 - k
  {
    hide Decode, Skip, NewValue;
    if k <= se {
      var (y, p) := Decode(t, s, pos);
      var r, n := y / 16, y % 16;
      if n == 0 && r != 15 {
        SkipBelow(refine, b, k, 64, se, p1, s, p + r);
      } else {
        SkipBelow(refine, b, k, r, se, p1, s, p + NewSize(refine, n));
        var (c, j, q) := Skip(refine, b, k, r, se, p1, s, p + NewSize(refine, n));
        BandBelow(refine, t, if n != 0 then c[Slot(j) := NewValue(refine, n, p1, s, p)] else c, j + 1, se, p1, s, q);
      }
    }
  }

  predicate BitPlace(p1: nat, h: nat)
  {
    0 < p1 <= 0x2000 && p1 * h == 0x8000
  }

  ghost predicate Fits(refine: bool, b: Zigzag)
  {
    refine ==> IsJcoef(b)
  }

  /** Passing over zeros goes the same way in a block an attempt has touched. */
  lemma {:induction false} SkipSame(refine: bool, x: Zigzag, y: Zigzag, f: Zigzag, e: nat, k: nat, r: nat, se: nat,
                                    p1: nat, s: seq<bit>, pos: nat, h: nat)
    requires BitPlace(p1, h) && se < 64 && TouchedBut(refine, x, y, f, e) && Fits(refine, x) && Fits(refine, y)
    requires var (c, k1, _) := Skip(refine, y, k, r, se, p1, s, pos);
      forall j :: 0 <= j < 64 && k <= j < k1 && j != e ==> f[j] == c[j]
    ensures var (b, i, p) := Skip(refine, x, k, r, se, p1, s, pos);
      var (c, j, q) := Skip(refine, y, k, r, se, p1, s, pos);
      i == j && p == q && TouchedBut(refine, b, c, f, e) && Fits(refine, b) && Fits(refine, c)
    decreases se + 1 - k
  {
    hide Correct, HasBit;
    if refine && k <= se {
      if y[k] != 0 {
        var bit := BitAt(s, pos);
        var v, w := Correct(x[k], bit, p1), Correct(y[k], bit, p1);
        SkipBelow(refine, y[k := w], k + 1, r, se, p1, s, pos + 1);
        CorrectTwice(y[k], bit, p1, h);
        CorrectNonzero(x[k], bit, p1);
        CorrectNonzero(y[k], bit, p1);
        assert k != e ==> v == w;
        SkipSame(refine, x[k := v], y[k := w], f, e, k + 1, r, se, p1, s, pos + 1, h);
      } else if r != 0 {
        SkipSame(refine, x, y, f, e, k + 1, r - 1, se, p1, s, pos, h);
      }
    }
  }

  /** From a block an attempt has touched the same is decoded. */
  lemma {:induction false} BandSame(refine: bool, t: Table, x: Zigzag, y: Zigzag, k: nat, se: nat, p1: nat,
                                    s: seq<bit>, pos: nat, h: nat)
    requires BitPlace(p1, h) && se < 64 && WellFormed(t) && Upto(t.bits, 16) <= 256
    requires Fits(refine, x) && Fits(refine, y)
    requires TouchedBut(refine, x, y, Band(refine, t, y, k, se, p1, s, pos).0, 64)
    ensures Band(refine, t, x, k, se, p1, s, pos) == Band(refine, t, y, k, se, p1, s, pos)
    decreases se + 1 - k
  {
    hide Decode, Skip, BitPlace, TouchedBut, Fits, NewValue, Rest, IsJcoef;
    PlacePositive(p1, h);
    var f := Band(refine, t, y, k, se, p1, s, pos).0;
    if k > se {
      NothingTouched(refine, x, y);
    } else {
      var (sym, p) := Decode(t, s, pos);
      var r, n := sym / 16, sym % 16;
      if n == 0 && r != 15 {
        RestSame(refine, x, y, k, se, p1, s, p + r, h);
      } else {
        var at := p + NewSize(refine, n);
        var (c, j, q) := Skip(refine, y, k, r, se, p1, s, at);
        var d := if n != 0 then c[Slot(j) := NewValue(refine, n, p1, s, p)] else c;
        BandBelow(refine, t, d, j + 1, se, p1, s, q);
        var e := if j >= 64 && n != 0 then 63 else 64;
        WeakerTouch(refine, x, y, f, e);
        SkipSame(refine, x, y, f, e, k, r, se, p1, s, at, h);
        var b := Skip(refine, x, k, r, se, p1, s, at).0;
        if n != 0 {
          NewFits(refine, n, p1, s, p);
          StoreSame(refine, b, c, f, e, Slot(j), NewValue(refine, n, p1, s, p));
        }
        BandSame(refine, t, if n != 0 then b[Slot(j) := NewValue(refine, n, p1, s, p)] else b, d, j + 1, se, p1, s,
                 q, h);
      }
    }
  }

  lemma NothingTouched(refine: bool, x: Zigzag, y: Zigzag)
    requires TouchedBut(refine, x, y, y, 64)
    ensures x == y
  {
  }

  lemma WeakerTouch(refine: bool, x: Zigzag, y: Zigzag, f: Zigzag, e: nat)
    requires TouchedBut(refine, x, y, f, 64)
    ensures TouchedBut(refine, x, y, f, e)
  {
  }

  lemma NewFits(refine: bool, n: nat, p1: nat, s: seq<bit>, pos: nat)
    requires 0 < n
    ensures InCoef(NewValue(refine, n, p1, s, pos))
  {
  }

  lemma StoreSame(refine: bool, b: Zigzag, c: Zigzag, f: Zigzag, e: nat, i: nat, v: int)
    requires TouchedBut(refine, b, c, f, e) && i < 64 && (e == 64 || e == i) && InCoef(v)
    requires Fits(refine, b) && Fits(refine, c)
    ensures TouchedBut(refine, b[i := v], c[i := v], f, 64) && Fits(refine, b[i := v]) && Fits(refine, c[i := v])
  {
  }

  lemma RestSame(refine: bool, x: Zigzag, y: Zigzag, k: nat, se: nat, p1: nat, s: seq<bit>, pos: nat, h: nat)
    requires BitPlace(p1, h) && se < 64 && Fits(refine, x) && Fits(refine, y)
    requires TouchedBut(refine, x, y, Rest(refine, y, k, se, p1, s, pos).0, 64)
    ensures Rest(refine, x, k, se, p1, s, pos) == Rest(refine, y, k, se, p1, s, pos)
  {
    hide Skip;
    if refine {
      var c := Skip(refine, y, k, 64, se, p1, s, pos).0;
      SkipSame(refine, x, y, c, 64, k, 64, se, p1, s, pos, h);
      assert Skip(refine, x, k, 64, se, p1, s, pos).0 == c;
    } else {
      assert x == y;
    }
  }

  /** Suspension does not show: whatever attempts have touched, on any stream, the
      block, the run and the position come out as from the untouched block. */
  lemma SameFromTouched(refine: bool, t: Table, cur: Zigzag, base: Zigzag, k: nat, run: nat, se: nat, p1: nat,
                        s: seq<bit>, pos: nat, h: nat)
    requires BitPlace(p1, h) && se < 64 && WellFormed(t) && Upto(t.bits, 16) <= 256
    requires Fits(refine, cur) && Fits(refine, base)
    requires Touched(refine, cur, base, BlockBand(refine, t, base, k, run, se, p1, s, pos).0)
    ensures BlockBand(refine, t, cur, k, run, se, p1, s, pos) == BlockBand(refine, t, base, k, run, se, p1, s, pos)
  {
    hide Band, Rest, Touched, TouchedBut, Fits, BitPlace;
    PlacePositive(p1, h);
    TouchedMeans(refine, cur, base, BlockBand(refine, t, base, k, run, se, p1, s, pos).0);
    if run == 0 {
      BandSame(refine, t, cur, base, k, se, p1, s, pos, h);
    } else {
      RestSame(refine, cur, base, k, se, p1, s, pos, h);
    }
  }

  lemma PlacePositive(p1: nat, h: nat)
    requires BitPlace(p1, h)
    ensures 0 < p1 <= 0x2000
  {
  }

  // --------------------------------------------------------------- correction bits

  lemma WindowOne(s: seq<bit>, pos: nat)
    ensures Window(s, pos, 1) == BitAt(s, pos)
  {
    assert Window(s, pos, 0) == 0;
  }

  lemma SkipStep(b: Zigzag, k: nat, r: nat, se: nat, p1: nat, s: seq<bit>, pos: nat)
    requires 0 < p1 && se < 64
    ensures k > se ==> Skip(true, b, k, r, se, p1, s, pos) == (b, k, pos)
    ensures k <= se && b[k] != 0 ==>
              Skip(true, b, k, r, se, p1, s, pos)
              == Skip(true, b[k := Correct(b[k], BitAt(s, pos), p1)], k + 1, r, se, p1, s, pos + 1)
    ensures k <= se && b[k] == 0 && r == 0 ==> Skip(true, b, k, r, se, p1, s, pos) == (b, k, pos)
    ensures k <= se && b[k] == 0 && r != 0 ==>
              Skip(true, b, k, r, se, p1, s, pos) == Skip(true, b, k + 1, r - 1, se, p1, s, pos)
  {
  }

  /** The block is as before from position `k` on, and touched in front of it. */
  ghost predicate TouchedBelow(cur: Zigzag, base: Zigzag, final: Zigzag, k: nat)
  {
    Touched(true, cur, base, final) && forall j :: k <= j < 64 ==> cur[j] == base[j]
  }

  lemma TouchNext(cur: Zigzag, base: Zigzag, final: Zigzag, k: nat, v: int)
    requires k < 64 && TouchedBelow(cur, base, final, k) && final[k] == v && base[k] != 0 && v != 0
    ensures TouchedBelow(cur[k := v], base, final, k + 1)
  {
    var now := cur[k := v];
    forall j | 0 <= j < 64
      ensures TouchedAt(true, now[j], base[j], final[j])
    {
      assert TouchedAt(true, cur[j], base[j], final[j]);
    }
  }

  lemma TouchNone(b: Zigzag, final: Zigzag, k: nat)
    ensures TouchedBelow(b, b, final, k)
  {
  }

  lemma TouchedBelowMeans(cur: Zigzag, base: Zigzag, final: Zigzag, k: nat)
    requires TouchedBelow(cur, base, final, k)
    ensures Touched(true, cur, base, final) && forall j :: k <= j < 64 ==> cur[j] == base[j]
    ensures forall i :: k <= i ==> TouchedBelow(cur, base, final, i)
  {
  }

  /** Pass `zeros` zeros, correcting coefficients on the way; stops at the next zero. */
  method AdvanceOver(r: BitReader, order: seq<nat>, block: array<int>, from: nat, zeros: nat, se: nat, p1: nat,
                     ghost h: nat) returns (ok: bool, k: nat)
    requires r.Valid() && IsOrder(order) && block.Length == 64 && from <= se < 64 && BitPlace(p1, h) && 0 < p1
    requires IsJcoef(Held(order, block))
    modifies r, block
    ensures SameSegment(r) && (if ok then Supplied(r) else r.Stopped()) && IsJcoef(Held(order, block))
    ensures var res := Skip(true, old(Held(order, block)), from, zeros, se, p1, Unpack(r.data), old(r.at));
      if ok then (Held(order, block), k, r.at) == res
      else TouchedBelow(Held(order, block), old(Held(order, block)), res.0, se)
  {
    hide BitReader.Valid, Unpack, Held, IsOrder, Skip, TouchedBelow, BitPlace, IsJcoef, Correct, HasBit, BitAt, Window;
    PlacePositive(p1, h);
    ghost var base := Held(order, block);
    ghost var all := Skip(true, base, from, zeros, se, p1, Unpack(r.data), r.at);
    k := from;
    ok := true;
    var left := zeros;
    TouchNone(base, all.0, from);
    while k <= se
      invariant from <= k && SameSegment(r) && Supplied(r) && IsJcoef(Held(order, block))
      invariant all == Skip(true, Held(order, block), k, left, se, p1, Unpack(r.data), r.at)
      invariant TouchedBelow(Held(order, block), base, all.0, k)
      decreases se + 1 - k
    {
      ghost var cur := Held(order, block);
      SkipStep(cur, k, left, se, p1, Unpack(r.data), r.at);
      TouchedBelowMeans(cur, base, all.0, k);
      HeldAt(order, block, k);
      var x := block[order[k]];
      if x != 0 {
        ok := r.CheckBitBuffer(1);
        if !ok {
          return;
        }
        WindowOne(Unpack(r.data), r.at);
        var bit := r.GetBits(1);
        var v := Correct(x, bit, p1);
        CoefAt(cur, k);
        CorrectNonzero(x, bit, p1);
        SkipBelow(true, cur[k := v], k + 1, left, se, p1, Unpack(r.data), r.at);
        TouchNext(cur, base, all.0, k, v);
        JcoefStore(cur, k, v);
        Store(order, block, k, v);
      } else {
        if left == 0 {
          return;
        }
        left := left - 1;
      }
      k := k + 1;
    }
    SkipStep(Held(order, block), k, left, se, p1, Unpack(r.data), r.at);
  }

  lemma CoefAt(b: Zigzag, k: nat)
    requires IsJcoef(b) && k < 64
    ensures InCoef(b[k])
  {
  }

  /** Correct the rest of the band, after its last new coefficient. */
  method CorrectRest(r: BitReader, order: seq<nat>, block: array<int>, from: nat, se: nat, p1: nat, ghost h: nat)
    returns (ok: bool)
    requires r.Valid() && IsOrder(order) && block.Length == 64 && 0 < from <= se < 64 && BitPlace(p1, h) && 0 < p1
    requires IsJcoef(Held(order, block))
    modifies r, block
    ensures SameSegment(r) && (if ok then Supplied(r) else r.Stopped()) && IsJcoef(Held(order, block))
    ensures var res := Rest(true, old(Held(order, block)), from, se, p1, Unpack(r.data), old(r.at));
      if ok then (Held(order, block), r.at) == res
      else Touched(true, Held(order, block), old(Held(order, block)), res.0)
  {
    hide BitReader.Valid, Unpack, Held, IsOrder, Skip, TouchedBelow, BitPlace, IsJcoef, Correct, HasBit, BitAt, Window,
      Touched;
    PlacePositive(p1, h);
    ghost var base := Held(order, block);
    ghost var all := Skip(true, base, from, 64, se, p1, Unpack(r.data), r.at);
    var k := from;
    ok := true;
    ghost var left: nat := 64;
    TouchNone(base, all.0, from);
    while k <= se
      invariant from <= k <= se + 1 && 64 - k < left
      invariant SameSegment(r) && Supplied(r) && IsJcoef(Held(order, block))
      invariant all == Skip(true, Held(order, block), k, left, se, p1, Unpack(r.data), r.at)
      invariant TouchedBelow(Held(order, block), base, all.0, k)
      decreases se + 1 - k
    {
      ghost var cur := Held(order, block);
      SkipStep(cur, k, left, se, p1, Unpack(r.data), r.at);
      TouchedBelowMeans(cur, base, all.0, k);
      HeldAt(order, block, k);
      var x := block[order[k]];
      if x != 0 {
        ok := r.CheckBitBuffer(1);
        if !ok {
          return;
        }
        WindowOne(Unpack(r.data), r.at);
        var bit := r.GetBits(1);
        var v := Correct(x, bit, p1);
        CoefAt(cur, k);
        CorrectNonzero(x, bit, p1);
        SkipBelow(true, cur[k := v], k + 1, left, se, p1, Unpack(r.data), r.at);
        TouchNext(cur, base, all.0, k, v);
        JcoefStore(cur, k, v);
        Store(order, block, k, v);
      } else {
        left := left - 1;
      }
      k := k + 1;
    }
    SkipStep(Held(order, block), k, left, se, p1, Unpack(r.data), r.at);
  }

  // -------------------------------------------------------------------- refinement

  /** New coefficients are at `newnz`, where zeros were; the rest is touched. */
  ghost predicate Marked(cur: Zigzag, base: Zigzag, final: Zigzag, newnz: seq<nat>)
  {
    forall j :: 0 <= j < 64 ==>
      if j in newnz then base[j] == 0 else TouchedAt(true, cur[j], base[j], final[j])
  }

  lemma MarkedStart(b: Zigzag, final: Zigzag)
    ensures Marked(b, b, final, [])
  {
  }

  /** Passing zeros keeps it so, whether or not it came to an end. */
  lemma MarkedPass(now: Zigzag, cur: Zigzag, base: Zigzag, final: Zigzag, passed: Zigzag, newnz: seq<nat>, k: nat)
    requires Marked(cur, base, final, newnz) && TouchedBelow(now, cur, passed, k)
    requires forall j :: 0 <= j < 64 && j < k ==> final[j] == passed[j]
    ensures Marked(now, base, final, newnz)
  {
    forall j | 0 <= j < 64
      ensures if j in newnz then base[j] == 0 else TouchedAt(true, now[j], base[j], final[j])
    {
      assert TouchedAt(true, now[j], cur[j], passed[j]);
      assert if j in newnz then base[j] == 0 else TouchedAt(true, cur[j], base[j], final[j]);
    }
  }

  /** What passing zeros does is touch the coefficients that are not zero. */
  lemma {:induction false} SkipTouches(b: Zigzag, k: nat, r: nat, se: nat, p1: nat, s: seq<bit>, pos: nat)
    requires 0 < p1 <= 0x2000 && se < 64 && IsJcoef(b)
    ensures var (c, k1, _) := Skip(true, b, k, r, se, p1, s, pos); TouchedBelow(c, b, c, k1)
    decreases se + 1 - k
  {
    hide Correct;
    SkipBelow(true, b, k, r, se, p1, s, pos);
    if k <= se && b[k] != 0 {
      var v := Correct(b[k], BitAt(s, pos), p1);
      CorrectNonzero(b[k], BitAt(s, pos), p1);
      SkipBelow(true, b[k := v], k + 1, r, se, p1, s, pos + 1);
      SkipTouches(b[k := v], k + 1, r, se, p1, s, pos + 1);
      var c := Skip(true, b, k, r, se, p1, s, pos).0;
      forall j | 0 <= j < 64
        ensures TouchedAt(true, c[j], b[j], c[j])
      {
        assert TouchedAt(true, c[j], b[k := v][j], c[j]);
      }
    } else if k <= se && r != 0 {
      SkipTouches(b, k + 1, r - 1, se, p1, s, pos);
    }
  }

  lemma MarkedFresh(cur: Zigzag, base: Zigzag, final: Zigzag, newnz: seq<nat>, k: nat, v: int)
    requires Marked(cur, base, final, newnz) && k < 64 && cur[k] == 0 && k !in newnz
    ensures Marked(cur[k := v], base, final, newnz + [k])
  {
    forall j | 0 <= j < 64
      ensures if j in newnz + [k] then base[j] == 0 else TouchedAt(true, cur[k := v][j], base[j], final[j])
    {
      assert if j in newnz then base[j] == 0 else TouchedAt(true, cur[j], base[j], final[j]);
    }
  }

  /** undoit: the new coefficients become zero again. */
  method Undo(order: seq<nat>, block: array<int>, newnz: seq<nat>, ghost base: Zigzag, ghost final: Zigzag)
    requires IsOrder(order) && block.Length == 64 && IsJcoef(Held(order, block))
    requires forall i :: 0 <= i < |newnz| ==> newnz[i] < 64
    requires Marked(Held(order, block), base, final, newnz)
    modifies block
    ensures Touched(true, Held(order, block), base, final) && IsJcoef(Held(order, block))
  {
    hide Held, IsOrder, IsJcoef;
    var num := |newnz|;
    ghost var cur := Held(order, block);
    while num > 0
      invariant 0 <= num <= |newnz| && IsJcoef(Held(order, block))
      invariant forall j :: 0 <= j < 64 ==>
                  Held(order, block)[j] == if j in newnz[num..] then 0 else cur[j]
    {
      num := num - 1;
      assert newnz[num..] == [newnz[num]] + newnz[num + 1..];
      JcoefStore(Held(order, block), newnz[num], 0);
      Store(order, block, newnz[num], 0);
    }
    assert newnz[0..] == newnz;
    Undone(Held(order, block), cur, base, final, newnz);
  }

  lemma Undone(now: Zigzag, cur: Zigzag, base: Zigzag, final: Zigzag, newnz: seq<nat>)
    requires Marked(cur, base, final, newnz)
    requires forall j :: 0 <= j < 64 ==> now[j] == if j in newnz then 0 else cur[j]
    ensures Touched(true, now, base, final)
  {
    forall j | 0 <= j < 64
      ensures TouchedAt(true, now[j], base[j], final[j])
    {
      assert if j in newnz then base[j] == 0 else TouchedAt(true, cur[j], base[j], final[j]);
    }
  }

  lemma BandStep(refine: bool, t: Table, b: Zigzag, k: nat, se: nat, p1: nat, s: seq<bit>, pos: nat)
    requires 0 < p1 && se < 64 && WellFormed(t) && Upto(t.bits, 16) <= 256
    ensures k > se ==> Band(refine, t, b, k, se, p1, s, pos) == (b, 0, pos)
    ensures k <= se ==>
      var (y, p) := Decode(t, s, pos);
      var r, n := y / 16, y % 16;
      if n == 0 && r != 15 then
        var (c, q) := Rest(refine, b, k, se, p1, s, p + r);
        Band(refine, t, b, k, se, p1, s, pos) == (c, Pow2(r) + Window(s, p, r) - 1, q)
      else
        var (c, j, q) := Skip(refine, b, k, r, se, p1, s, p + NewSize(refine, n));
        Band(refine, t, b, k, se, p1, s, pos)
        == Band(refine, t, if n != 0 then c[Slot(j) := NewValue(refine, n, p1, s, p)] else c, j + 1, se, p1, s, q)
  {
    hide Decode, Skip, Rest, NewValue, NewSize;
  }

  lemma RefinedValue(n: nat, p1: nat, s: seq<bit>, pos: nat)
    requires 0 < n && 0 < p1 <= 0x2000
    ensures NewValue(true, n, p1, s, pos) == if BitAt(s, pos) == 1 then p1 else -(p1 as int)
    ensures NewSize(true, n) == 1 && InCoef(NewValue(true, n, p1, s, pos)) && NewSize(true, 0) == 0
  {
  }

  lemma ReadSize(s: seq<bit>, pos: nat)
    ensures Window(s, pos, 0) == 0
  {
  }

  /** After passing zeros: the state in front of the new coefficient. */
  lemma PassDone(t: Table, cur: Zigzag, base: Zigzag, final: Zigzag, k: nat, r: nat, n: nat, se: nat, p1: nat,
                 s: seq<bit>, p: nat, newnz: seq<nat>, v: int)
    requires 0 < p1 <= 0x2000 && k <= se < 64 && WellFormed(t) && Upto(t.bits, 16) <= 256
    requires Marked(cur, base, final, newnz) && (forall i :: 0 <= i < |newnz| ==> newnz[i] < k) && IsJcoef(cur)
    requires var (c, j, q) := Skip(true, cur, k, r, se, p1, s, p);
      final == Band(true, t, if n != 0 then c[Slot(j) := v] else c, j + 1, se, p1, s, q).0
    ensures var (c, j, q) := Skip(true, cur, k, r, se, p1, s, p);
      && k <= j <= se + 1
      && (j <= se ==> Marked(if n != 0 then c[j := v] else c, base, final, if n != 0 then newnz + [j] else newnz))
      && (forall now :: TouchedBelow(now, cur, c, se) ==> Marked(now, base, final, newnz))
  {
    hide Skip, Band, Marked, TouchedBelow, IsJcoef;
    var (c, j, q) := Skip(true, cur, k, r, se, p1, s, p);
    SkipBelow(true, cur, k, r, se, p1, s, p);
    BandBelow(true, t, if n != 0 then c[Slot(j) := v] else c, j + 1, se, p1, s, q);
    SkipTouches(cur, k, r, se, p1, s, p);
    forall now | TouchedBelow(now, cur, c, se)
      ensures Marked(now, base, final, newnz)
    {
      TouchedBelowMeans(now, cur, c, se);
      PassLimit(now, cur, c, j, se);
      MarkedPass(now, cur, base, final, c, newnz, if j <= se then j else se);
    }
    if j <= se {
      MarkedPass(c, cur, base, final, c, newnz, j);
      if n != 0 {
        MarkedFresh(c, base, final, newnz, j, v);
      }
    }
  }

  /** Beyond the end of the pass nothing is touched. */
  lemma PassLimit(now: Zigzag, cur: Zigzag, passed: Zigzag, j: nat, se: nat)
    requires TouchedBelow(now, cur, passed, se) && forall i :: j <= i < 64 ==> passed[i] == cur[i]
    ensures TouchedBelow(now, cur, passed, if j <= se then j else se)
  {
    forall i | j <= i < 64
      ensures now[i] == cur[i]
    {
      assert TouchedAt(true, now[i], cur[i], passed[i]);
    }
  }

  /** One symbol of a refinement band at position `k`, and what belongs to it. */
  method RefineStep(r: BitReader, t: Table, d: DTable, order: seq<nat>, block: array<int>, k: nat, se: nat, p1: nat,
                    ghost h: nat, newnz: seq<nat>, ghost base: Zigzag, ghost want: (Zigzag, nat, nat))
    returns (ok: bool, next: nat, run: nat, more: seq<nat>)
    requires r.Valid() && Decoder(t, d) && WellFormed(t) && Upto(t.bits, 16) <= 256
    requires IsOrder(order) && block.Length == 64 && k <= se < 64 && BitPlace(p1, h) && 0 < p1
    requires IsJcoef(Held(order, block)) && Marked(Held(order, block), base, want.0, newnz)
    requires forall i :: 0 <= i < |newnz| ==> newnz[i] < k
    requires want == Band(true, t, Held(order, block), k, se, p1, Unpack(r.data), r.at)
    modifies r, block
    ensures SameSegment(r) && (if ok then Supplied(r) else r.Stopped()) && IsJcoef(Held(order, block))
    ensures !ok ==> Marked(Held(order, block), base, want.0, newnz)
    ensures ok && run == 0 ==>
              && k < next && want == Band(true, t, Held(order, block), next, se, p1, Unpack(r.data), r.at)
              && (next <= se ==> Marked(Held(order, block), base, want.0, more))
              && forall i :: 0 <= i < |more| ==> more[i] < next
    ensures ok && run > 0 ==>
              && Held(order, block) == old(Held(order, block))
              && var (c, q) := Rest(true, Held(order, block), k, se, p1, Unpack(r.data), r.at);
                 want == (c, run - 1, q)
  {
    hide BitReader.Valid, Unpack, Decode, DecodesTable, Next, Upto, Decoder, Held, IsOrder, Skip, Rest, Band, Marked,
      TouchedBelow, BitPlace, IsJcoef, NewValue, NewSize, BitAt, Window;
    PlacePositive(p1, h);
    DecoderMeans(t, d);
    SymbolSmall(t, d, Unpack(r.data), r.at);
    BandStep(true, t, Held(order, block), k, se, p1, Unpack(r.data), r.at);
    next, run, more := k, 0, newnz;
    var s;
    ok, s := r.HuffDecode(t, d);
    if !ok {
      return;
    }
    var zeros, n := s / 16, s % 16;
    if n == 0 && zeros != 15 {
      ReadSize(Unpack(r.data), r.at);
      var bits := 0;
      if zeros != 0 {
        ok := r.CheckBitBuffer(zeros);
        if !ok {
          return;
        }
        bits := r.GetBits(zeros);
      }
      run := Pow2(zeros) + bits;
      return;
    }
    ok, next, more := RefineCoef(r, t, order, block, k, zeros, n, se, p1, h, newnz, base, want);
  }

  /** The new coefficient, if `n` is not zero, after `zeros` zeros. */
  method RefineCoef(r: BitReader, ghost t: Table, order: seq<nat>, block: array<int>, k: nat, zeros: nat, n: nat,
                    se: nat, p1: nat, ghost h: nat, newnz: seq<nat>, ghost base: Zigzag,
                    ghost want: (Zigzag, nat, nat))
    returns (ok: bool, next: nat, more: seq<nat>)
    requires r.Valid() && WellFormed(t) && Upto(t.bits, 16) <= 256
    requires IsOrder(order) && block.Length == 64 && k <= se < 64 && BitPlace(p1, h) && 0 < p1
    requires IsJcoef(Held(order, block)) && Marked(Held(order, block), base, want.0, newnz)
    requires forall i :: 0 <= i < |newnz| ==> newnz[i] < k
    requires var (c, j, q) := Skip(true, Held(order, block), k, zeros, se, p1, Unpack(r.data),
                                   r.at + NewSize(true, n));
      want == Band(true, t, if n != 0 then c[Slot(j) := NewValue(true, n, p1, Unpack(r.data), r.at)] else c, j + 1,
                   se, p1, Unpack(r.data), q)
    modifies r, block
    ensures SameSegment(r) && (if ok then Supplied(r) else r.Stopped()) && IsJcoef(Held(order, block))
    ensures !ok ==> Marked(Held(order, block), base, want.0, newnz)
    ensures ok ==>
              && k < next && want == Band(true, t, Held(order, block), next, se, p1, Unpack(r.data), r.at)
              && (next <= se ==> Marked(Held(order, block), base, want.0, more))
              && forall i :: 0 <= i < |more| ==> more[i] < next
  {
    hide BitReader.Valid, Unpack, Decode, Next, Upto, Held, IsOrder, Skip, Rest, Band, Marked,
      TouchedBelow, BitPlace, IsJcoef, NewValue, NewSize, BitAt, Window;
    PlacePositive(p1, h);
    RefinedValue(if n == 0 then 1 else n, p1, Unpack(r.data), r.at);
    ghost var cur := Held(order, block);
    PassDone(t, cur, base, want.0, k, zeros, n, se, p1, Unpack(r.data), r.at + NewSize(true, n), newnz,
             if n != 0 then NewValue(true, n, p1, Unpack(r.data), r.at) else 0);
    next, more := k, newnz;
    var v := 0;
    if n != 0 {
      ok := r.CheckBitBuffer(1);
      if !ok {
        return;
      }
      WindowOne(Unpack(r.data), r.at);
      var bit := r.GetBits(1);
      v := if bit == 1 then p1 else -(p1 as int);
    }
    ok, next := AdvanceOver(r, order, block, k, zeros, se, p1, h);
    if !ok {
      return;
    }
    if n != 0 {
      more := newnz + [Slot(next)];
      JcoefStore(Held(order, block), Slot(next), v);
      Store(order, block, Slot(next), v);
    }
    next := next + 1;
  }

  /** decode_mcu_AC_refine: one block; when the input runs out, new coefficients are
      taken back, and corrections that have been made stay. */
  method DecodeRefine(r: BitReader, t: Table, d: DTable, order: seq<nat>, block: array<int>, ss: nat, se: nat,
                      p1: nat, ghost h: nat, eobrun: nat) returns (ok: bool, left: nat)
    requires r.Valid() && Decoder(t, d) && WellFormed(t) && Upto(t.bits, 16) <= 256
    requires IsOrder(order) && block.Length == 64 && 0 < ss <= se < 64 && BitPlace(p1, h) && 0 < p1
    requires IsJcoef(Held(order, block))
    modifies r, block
    ensures SameSegment(r) && (if ok then Supplied(r) else r.Stopped()) && IsJcoef(Held(order, block))
    ensures var all := BlockBand(true, t, old(Held(order, block)), ss, eobrun, se, p1, Unpack(r.data), old(r.at));
      if ok then (Held(order, block), left, r.at) == all
      else Touched(true, Held(order, block), old(Held(order, block)), all.0)
  {
    hide BitReader.Valid, Unpack, Decode, DecodesTable, Next, Upto, Decoder, Held, IsOrder, Rest, Band, Marked,
      BitPlace, IsJcoef, Touched;
    ghost var base := Held(order, block);
    ghost var all := BlockBand(true, t, base, ss, eobrun, se, p1, Unpack(r.data), r.at);
    MarkedStart(base, all.0);
    var k, newnz: seq<nat> := ss, [];
    left, ok := eobrun, true;
    if eobrun == 0 {
      while k <= se && left == 0
        invariant SameSegment(r) && Supplied(r) && IsJcoef(Held(order, block)) && ss <= k
        invariant left == 0 ==> all == Band(true, t, Held(order, block), k, se, p1, Unpack(r.data), r.at)
        invariant left > 0 ==> k <= se && var (c, q) := Rest(true, Held(order, block), k, se, p1, Unpack(r.data), r.at);
                                          all == (c, left - 1, q)
        invariant k <= se ==> Marked(Held(order, block), base, all.0, newnz)
        invariant forall i :: 0 <= i < |newnz| ==> newnz[i] < k
        decreases se + 1 - k, left == 0
      {
        var next, more;
        ok, next, left, more := RefineStep(r, t, d, order, block, k, se, p1, h, newnz, base, all);
        if !ok {
          Undo(order, block, newnz, base, all.0);
          return;
        }
        if left == 0 {
          k, newnz := next, more;
        }
      }
    }
    if left > 0 {
      ghost var cur := Held(order, block);
      ok := CorrectRest(r, order, block, k, se, p1, h);
      if !ok {
        MarkedRest(Held(order, block), cur, base, all.0, newnz);
        Undo(order, block, newnz, base, all.0);
        return;
      }
      left := left - 1;
    } else {
      BandStep(true, t, Held(order, block), k, se, p1, Unpack(r.data), r.at);
    }
  }

  lemma MarkedRest(now: Zigzag, cur: Zigzag, base: Zigzag, final: Zigzag, newnz: seq<nat>)
    requires Marked(cur, base, final, newnz) && Touched(true, now, cur, final)
    ensures Marked(now, base, final, newnz)
  {
    hide TouchedBelow;
    TouchedLast(now, cur, final);
    MarkedPass(now, cur, base, final, final, newnz, 64);
  }

  lemma TouchedLast(now: Zigzag, cur: Zigzag, final: Zigzag)
    requires Touched(true, now, cur, final)
    ensures TouchedBelow(now, cur, final, 64)
  {
  }

  // ------------------------------------------------------------------- first stage

  lemma FirstValue(n: nat, p1: nat, s: seq<bit>, pos: nat)
    requires 0 < n
    ensures NewValue(false, n, p1, s, pos) == ToCoef(Extend(Window(s, pos, n), n) * p1)
    ensures NewSize(false, n) == n && NewSize(false, 0) == 0
  {
  }

  lemma FirstSkip(b: Zigzag, k: nat, r: nat, se: nat, p1: nat, s: seq<bit>, pos: nat)
    requires 0 < p1 && se < 64
    ensures Skip(false, b, k, r, se, p1, s, pos) == (b, k + r, pos)
    ensures Rest(false, b, k, se, p1, s, pos) == (b, pos)
  {
  }

  lemma StoredFinal(cur: Zigzag, base: Zigzag, final: Zigzag, k: nat, v: int)
    requires Touched(false, cur, base, final) && k < 64 && final[k] == v
    ensures Touched(false, cur[k := v], base, final)
  {
    forall j | 0 <= j < 64
      ensures TouchedAt(false, cur[k := v][j], base[j], final[j])
    {
      assert TouchedAt(false, cur[j], base[j], final[j]);
    }
  }

  lemma NothingStored(b: Zigzag, final: Zigzag)
    ensures Touched(false, b, b, final)
  {
  }

  /** decode_mcu_AC_first: one block. */
  method DecodeFirst(r: BitReader, t: Table, d: DTable, order: seq<nat>, block: array<int>, ss: nat, se: nat,
                     p1: nat, eobrun: nat) returns (ok: bool, left: nat)
    requires r.Valid() && Decoder(t, d) && WellFormed(t) && Upto(t.bits, 16) <= 256
    requires IsOrder(order) && block.Length == 64 && 0 < ss <= se < 64 && 0 < p1 && IsJcoef(Held(order, block))
    modifies r, block
    ensures SameSegment(r) && (if ok then Supplied(r) else r.Stopped()) && IsJcoef(Held(order, block))
    ensures var all := BlockBand(false, t, old(Held(order, block)), ss, eobrun, se, p1, Unpack(r.data), old(r.at));
      if ok then (Held(order, block), left, r.at) == all
      else Touched(false, Held(order, block), old(Held(order, block)), all.0)
  {
    hide BitReader.Valid, Unpack, Decode, DecodesTable, Next, Upto, Decoder, Held, IsOrder, Skip, Rest, Band,
      Touched, NewValue, NewSize, Extend, Window, ToCoef, IsJcoef;
    DecoderMeans(t, d);
    ghost var base := Held(order, block);
    ghost var all := BlockBand(false, t, base, ss, eobrun, se, p1, Unpack(r.data), r.at);
    NothingStored(base, all.0);
    if eobrun > 0 {
      FirstSkip(base, ss, 0, se, p1, Unpack(r.data), r.at);
      return true, eobrun - 1;
    }
    var k := ss;
    left, ok := 0, true;
    while k <= se
      invariant SameSegment(r) && Supplied(r) && Touched(false, Held(order, block), base, all.0)
      invariant IsJcoef(Held(order, block))
      invariant all == Band(false, t, Held(order, block), k, se, p1, Unpack(r.data), r.at)
      decreases se + 1 - k
    {
      ghost var cur := Held(order, block);
      BandStep(false, t, cur, k, se, p1, Unpack(r.data), r.at);
      SymbolSmall(t, d, Unpack(r.data), r.at);
      var s;
      ok, s := r.HuffDecode(t, d);
      if !ok {
        return;
      }
      var zeros, n := s / 16, s % 16;
      FirstSkip(cur, k, zeros, se, p1, Unpack(r.data), r.at + NewSize(false, n));
      FirstSkip(cur, k, zeros, se, p1, Unpack(r.data), r.at + zeros);
      if n != 0 {
        FirstValue(n, p1, Unpack(r.data), r.at);
        var v;
        k := k + zeros;
        ok, v := GetExtended(r, n);
        if !ok {
          return;
        }
        v := ToCoef(v * p1);
        BandBelow(false, t, cur[Slot(k) := v], k + 1, se, p1, Unpack(r.data), r.at);
        StoredFinal(cur, base, all.0, Slot(k), v);
        JcoefStore(cur, Slot(k), v);
        Store(order, block, Slot(k), v);
      } else {
        FirstValue(1, p1, Unpack(r.data), r.at);
        if zeros != 15 {
          ok, left := ReadRun(r, zeros);
          return;
        }
        k := k + 15;
      }
      k := k + 1;
    }
    BandStep(false, t, Held(order, block), k, se, p1, Unpack(r.data), r.at);
  }

  /** Blocks left in an end-of-band run after this one. */
  method ReadRun(r: BitReader, size: nat) returns (ok: bool, left: nat)
    requires r.Valid() && size <= 15
    modifies r
    ensures SameSegment(r) && (if ok then Supplied(r) else r.Stopped())
    ensures ok ==> r.at == old(r.at) + size && left == Pow2(size) + Window(Unpack(r.data), old(r.at), size) - 1
  {
    hide BitReader.Valid, Unpack, Window;
    left, ok := 0, true;
    ReadSize(Unpack(r.data), r.at);
    if size != 0 {
      ok := r.CheckBitBuffer(size);
      if ok {
        var bits := r.GetBits(size);
        left := Pow2(size) + bits - 1;
      }
    }
  }
}
