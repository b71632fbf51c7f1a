/** Decoding a block of a progressive AC scan (T.81 section G.2), and reading back
    what the encoder sends. */
module ProgressiveBand {
  import opened Powers
  import opened BitStreams
  import opened Coefficients
  import opened HuffmanCode
  import opened HuffmanTables
  import opened HuffmanBlock
  import opened ProgressiveTokens

  // ------------------------------------------------------------ specification

  /** `v & p1` of a two's-complement value. */
  predicate HasBit(v: int, p1: nat)
    requires 0 < p1
  {
    v / p1 % 2 == 1
  }

  /** Add a correction bit to a nonzero coefficient, unless it is there already. */
  function Correct(v: int, b: bit, p1: nat): int
    requires 0 < p1
  {
    if b == 1 && !HasBit(v, p1) then ToCoef(if v >= 0 then v + p1 else v - p1) else v
  }

  function Slot(k: nat): (i: nat)
    ensures i < 64
  {
    if k < 64 then k else 63
  }

  /** Pass `r` zeros from position `k` on, in a refinement scan also correcting the
      coefficients that are not zero; stops at the next zero or the end of the band. */
  function Skip(refine: bool, b: Zigzag, k: nat, r: nat, se: nat, p1: nat, s: seq<bit>, pos: nat)
    : (res: (Zigzag, nat, nat))
    requires 0 < p1 && se < 64
    ensures k <= res.1
    decreases se + 1 - k
  {
    if !refine then (b, k + r, pos)
    else if k > se then (b, k, pos)
    else if b[k] != 0 then
      Skip(refine, b[k := Correct(b[k], BitAt(s, pos), p1)], k + 1, r, se, p1, s, pos + 1)
    else if r == 0 then (b, k, pos)
    else Skip(refine, b, k + 1, r - 1, se, p1, s, pos)
  }

  /** The band after its last new coefficient. */
  function Rest(refine: bool, b: Zigzag, k: nat, se: nat, p1: nat, s: seq<bit>, pos: nat): (Zigzag, nat)
    requires 0 < p1 && se < 64
  {
    if refine then var (c, _, q) := Skip(refine, b, k, 64, se, p1, s, pos); (c, q) else (b, pos)
  }

  /** Size of the bits that follow a symbol for a coefficient, and its value. */
  function NewSize(refine: bool, n: nat): nat
  {
    if n == 0 then 0 else if refine then 1 else n
  }

  function NewValue(refine: bool, n: nat, p1: nat, s: seq<bit>, pos: nat): int
    requires 0 < n
  {
    var v: int := if refine then if BitAt(s, pos) == 1 then 1 else -1 else Extend(Window(s, pos, n), n);
    ToCoef(v * p1)
  }

  /** A band from position `k` on: the block, blocks left in the end-of-band run, and
      the position in the stream. */
  function Band(refine: bool, t: Table, b: Zigzag, k: nat, se: nat, p1: nat, s: seq<bit>, pos: nat)
    : (Zigzag, nat, nat)
    requires 0 < p1 && se < 64 && WellFormed(t) && Upto(t.bits, 16) <= 256
    decreases se + 1 - k
  {
    if k > se then (b, 0, pos)
    else
      var (y, p) := Decode(t, s, pos);
      var r, n := y / 16, y % 16;
      if n == 0 && r != 15 then
        var (c, q) := Rest(refine, b, k, se, p1, s, p + r);
        (c, Pow2(r) + Window(s, p, r) - 1, q)
      else
        var (c, j, q) := Skip(refine, b, k, r, se, p1, s, p + NewSize(refine, n));
        Band(refine, t, if n != 0 then c[Slot(j) := NewValue(refine, n, p1, s, p)] else c, j + 1, se, p1, s, q)
  }

  /** A block, from position `k` on, when `run` blocks are left in the run. */
  function BlockBand(refine: bool, t: Table, b: Zigzag, k: nat, run: nat, se: nat, p1: nat, s: seq<bit>, pos: nat)
    : (Zigzag, nat, nat)
    requires 0 < p1 && se < 64 && WellFormed(t) && Upto(t.bits, 16) <= 256
  {
    if run == 0 then Band(refine, t, b, k, se, p1, s, pos)
    else var (c, q) := Rest(refine, b, k, se, p1, s, pos); (c, run - 1, q)
  }

  // --------------------------------------------------- before and after a scan

  /** What the decoder holds for the point-transformed value `x` before the scan. */
  function Before(refine: bool, x: int, p1: nat): int
  {
    if Old(refine, x) then Signed(SignBit(x), Abs(x) / 2) * (2 * p1) else 0
  }

  predicate InCoef(x: int)
  {
    -0x8000 <= x < 0x8000
  }

  ghost predicate Prepared(refine: bool, b: Zigzag, k: nat, c: seq<int>, p1: nat)
  {
    k + |c| <= 64 && forall i :: 0 <= i < |c| ==> b[k + i] == Before(refine, c[i], p1) && InCoef(c[i] * p1)
  }

  function Scaled(c: seq<int>, p1: nat): (d: seq<int>)
    ensures |d| == |c| && forall i :: 0 <= i < |c| ==> d[i] == c[i] * p1
  {
    seq(|c|, i requires 0 <= i < |c| => c[i] * p1)
  }

  /** The block with the band at `k` brought to the values `c`. */
  function Done(b: Zigzag, k: nat, c: seq<int>, p1: nat): (r: Zigzag)
    requires k + |c| <= 64
    ensures forall j :: 0 <= j < 64 ==> r[j] == if k <= j < k + |c| then c[j - k] * p1 else b[j]
  {
    Replace(b, k, Scaled(c, p1))
  }

  lemma DoneAppend(b: Zigzag, k: nat, c: seq<int>, d: seq<int>, p1: nat)
    requires k + |c| + |d| <= 64
    ensures Done(b, k, c + d, p1) == Done(Done(b, k, c, p1), k + |c|, d, p1)
  {
    hide Replace, Scaled;
    var x, y := Done(b, k, c + d, p1), Done(Done(b, k, c, p1), k + |c|, d, p1);
    assert forall j :: 0 <= j < 64 ==> x[j] == y[j];
  }

  lemma PreparedAppend(refine: bool, b: Zigzag, k: nat, c: seq<int>, d: seq<int>, p1: nat)
    requires k + |c| + |d| <= 64
    ensures Prepared(refine, b, k, c + d, p1) <==>
            Prepared(refine, b, k, c, p1) && Prepared(refine, b, k + |c|, d, p1)
    ensures Prepared(refine, b, k, c + d, p1) ==> Prepared(refine, Done(b, k, c, p1), k + |c|, d, p1)
  {
    hide Before, InCoef;
    var e := c + d;
    assert forall i :: 0 <= i < |c| ==> e[i] == c[i];
    assert forall i :: 0 <= i < |d| ==> e[|c| + i] == d[i];
    if Prepared(refine, b, k, e, p1) {
      forall i | 0 <= i < |d|
        ensures b[k + |c| + i] == Before(refine, d[i], p1) && InCoef(d[i] * p1)
      {
        assert b[k + (|c| + i)] == Before(refine, e[|c| + i], p1);
      }
    }
    if Prepared(refine, b, k, c, p1) && Prepared(refine, b, k + |c|, d, p1) {
      forall i | 0 <= i < |e|
        ensures b[k + i] == Before(refine, e[i], p1) && InCoef(e[i] * p1)
      {
        if |c| <= i {
          assert b[k + |c| + (i - |c|)] == Before(refine, d[i - |c|], p1);
        }
      }
    }
  }

  /** A correction bit completes the value. */
  lemma CorrectionAdded(x: int, p1: nat)
    requires 0 < p1 && Old(true, x) && InCoef(x * p1)
    ensures Before(true, x, p1) != 0 && Correct(Before(true, x, p1), Abs(x) % 2, p1) == x * p1
  {
    var h, d := Abs(x) / 2, Abs(x) % 2;
    assert Abs(x) == 2 * h + d;
    var v := Before(true, x, p1);
    var m: int := Signed(SignBit(x), h);
    MulShuffle(m, 2, p1);
    assert v == 2 * m * p1;
    BitOfProduct(m, p1);
    MulCompare(0, h, p1);
    AddProduct(2 * m, Signed(SignBit(x), d), p1);
    NegateProduct(h, 2 * p1);
    SignOf(h, p1);
  }

  lemma SignOf(h: nat, p1: nat)
    requires 0 < h && 0 < p1
    ensures h * (2 * p1) > 0
  {
  }

  // ------------------------------------------------------------------ skipping

  function ZerosIn(c: seq<int>): (n: nat)
    ensures n <= |c|
  {
    if c == [] then 0 else (if c[0] == 0 then 1 else 0) + ZerosIn(c[1..])
  }

  predicate NoneFresh(refine: bool, c: seq<int>)
  {
    forall i :: 0 <= i < |c| ==> !Fresh(refine, c[i])
  }

  /** Passing over zeros and corrected coefficients. */
  lemma {:induction false} SkipList(refine: bool, b: Zigzag, k: nat, u: seq<int>, r: nat, se: nat, p1: nat,
                                    s: seq<bit>, pos: nat)
    requires 0 < p1 && se < 64 && k + |u| <= se + 1 && Prepared(refine, b, k, u, p1)
    requires NoneFresh(refine, u) && ZerosIn(u) <= r && Holds(s, pos, Corrections(refine, u))
    ensures Skip(refine, b, k, r, se, p1, s, pos)
         == Skip(refine, Done(b, k, u, p1), k + |u|, r - ZerosIn(u), se, p1, s, pos + |Corrections(refine, u)|)
    decreases |u|
  {
    hide Done, Correct, Before, Fresh, Skip, Holds, Correction, Prepared;
    if u == [] {
      assert Done(b, k, u, p1) == b;
    } else {
      var x, rest, first := u[0], u[1..], Correction(refine, u[0]);
      assert u == [x] + rest;
      assert !Fresh(refine, x) && NoneFresh(refine, rest);
      PreparedAppend(refine, b, k, [x], rest, p1);
      DoneAppend(b, k, [x], rest, p1);
      HoldsSplit(s, pos, first, Corrections(refine, rest));
      SkipOne(refine, b, k, x, r, se, p1, s, pos);
      var left: nat := if x == 0 then r - 1 else r;
      var c := Done(b, k, [x], p1);
      SkipList(refine, c, k + 1, rest, left, se, p1, s, pos + |first|);
      assert Done(c, k + 1, rest, p1) == Done(b, k, u, p1);
      assert k + 1 + |rest| == k + |u| && left - ZerosIn(rest) == r - ZerosIn(u);
      assert pos + |first| + |Corrections(refine, rest)| == pos + |Corrections(refine, u)|;
    }
  }

  lemma SkipOne(refine: bool, b: Zigzag, k: nat, x: int, r: nat, se: nat, p1: nat, s: seq<bit>, pos: nat)
    requires 0 < p1 && k <= se < 64 && Prepared(refine, b, k, [x], p1) && !Fresh(refine, x)
    requires x == 0 ==> 0 < r
    requires Holds(s, pos, Correction(refine, x))
    ensures Skip(refine, b, k, r, se, p1, s, pos)
         == Skip(refine, Done(b, k, [x], p1), k + 1, if x == 0 then r - 1 else r, se, p1, s,
                 pos + |Correction(refine, x)|)
  {
    hide Correct;
    assert b[k + 0] == Before(refine, [x][0], p1) && InCoef([x][0] * p1);
    var d := Done(b, k, [x], p1);
    if Old(refine, x) {
      hide Before;
      CorrectionAdded(x, p1);
      assert s[pos + 0] == Correction(refine, x)[0];
      assert d == b[k := x * p1];
    } else {
      assert d == b;
    }
  }

  /** The tail of a band. */
  lemma RestParsed(refine: bool, b: Zigzag, k: nat, c: seq<int>, se: nat, p1: nat, s: seq<bit>, pos: nat)
    requires 0 < p1 && se < 64 && k + |c| == se + 1 && Prepared(refine, b, k, c, p1) && NoneFresh(refine, c)
    requires Holds(s, pos, Corrections(refine, c))
    ensures Rest(refine, b, k, se, p1, s, pos) == (Done(b, k, c, p1), pos + |Corrections(refine, c)|)
  {
    hide Done, Correct, Before, Corrections;
    if refine {
      SkipList(refine, b, k, c, 64, se, p1, s, pos);
    } else {
      SkipList(refine, b, k, c, |c|, se, p1, s, pos);
      NoCorrections(c);
    }
  }

  lemma {:induction false} NoCorrections(c: seq<int>)
    ensures Corrections(false, c) == []
  {
    if c != [] {
      NoCorrections(c[1..]);
    }
  }

  // ---------------------------------------------------------- reading symbols

  /** Both sides' tables, for AC symbols. */
  ghost predicate Tables(t: Table, dc: CTable, ac: CTable)
  {
    Matching(t, ac) && |dc.ehufco| == |dc.ehufsi| == 256
  }

  lemma {:induction false} BitTokensBits(x: seq<bit>, dc: CTable, ac: CTable)
    requires |dc.ehufco| == |dc.ehufsi| == |ac.ehufco| == |ac.ehufsi| == 256
    ensures TokensBits(BitTokens(x), dc, ac) == x && HaveCodes(BitTokens(x), dc, ac)
  {
    if x != [] {
      BitTokensBits(x[1..], dc, ac);
      assert BitTokens(x)[1..] == BitTokens(x[1..]);
      assert Word(x[0] % Pow2(1), 1) == [x[0]] by {
        assert Pow2(1) == 2;
        assert Word(x[0], 1) == Word(x[0] / 2, 0) + [x[0]];
      }
      assert x == [x[0]] + x[1..];
    }
  }

  lemma StopAtZero(refine: bool, b: Zigzag, k: nat, se: nat, p1: nat, s: seq<bit>, pos: nat)
    requires 0 < p1 && k <= se < 64 && b[k] == 0
    ensures Skip(refine, b, k, 0, se, p1, s, pos) == (b, k, pos)
  {
  }

  lemma {:induction false} ZerosInZeros(n: nat)
    ensures ZerosIn(Zeros(n)) == n && NoneFresh(true, Zeros(n)) && NoneFresh(false, Zeros(n))
  {
    if n != 0 {
      ZerosInZeros(n - 1);
      assert Zeros(n)[1..] == Zeros(n - 1);
    }
    ZerosAt(n);
  }

  lemma {:induction false} ZerosInAppend(c: seq<int>, d: seq<int>)
    ensures ZerosIn(c + d) == ZerosIn(c) + ZerosIn(d)
    decreases |c|
  {
    if c == [] {
      assert c + d == d;
    } else {
      assert (c + d)[1..] == c[1..] + d;
      ZerosInAppend(c[1..], d);
    }
  }

  lemma NoneFreshAppend(refine: bool, c: seq<int>, d: seq<int>)
    ensures NoneFresh(refine, c + d) <==> NoneFresh(refine, c) && NoneFresh(refine, d)
  {
    hide Fresh;
    assert forall i :: 0 <= i < |c| ==> (c + d)[i] == c[i];
    assert forall i :: 0 <= i < |d| ==> (c + d)[|c| + i] == d[i];
  }

  lemma DoneZeros(refine: bool, b: Zigzag, k: nat, n: nat, p1: nat)
    requires k + n <= 64 && Prepared(refine, b, k, Zeros(n), p1)
    ensures Done(b, k, Zeros(n), p1) == b
  {
    ZerosAt(n);
    forall j | k <= j < k + n
      ensures b[j] == 0
    {
      assert b[k + (j - k)] == Before(refine, Zeros(n)[j - k], p1);
    }
  }

  /** Passing `u`, in which less than `r` zeros are, and zeros up to the last of the run. */
  lemma PassRun(refine: bool, b: Zigzag, k: nat, u: seq<int>, r: nat, se: nat, p1: nat, s: seq<bit>, pos: nat)
    requires 0 < p1 && se < 64 && NoneFresh(refine, u) && ZerosIn(u) <= r
    requires k + |u| + (r - ZerosIn(u)) <= se && Prepared(refine, b, k, u + Zeros(r - ZerosIn(u)), p1)
    requires b[k + |u| + (r - ZerosIn(u))] == 0
    requires Holds(s, pos, Corrections(refine, u))
    ensures Skip(refine, b, k, r, se, p1, s, pos)
         == (Done(b, k, u, p1), k + |u| + (r - ZerosIn(u)), pos + |Corrections(refine, u)|)
  {
    hide *;
    var z: nat := r - ZerosIn(u);
    var w, cs := u + Zeros(z), Corrections(refine, u);
    ZerosInZeros(z);
    ZerosInAppend(u, Zeros(z));
    NoneFreshAppend(refine, u, Zeros(z));
    CorrectionsAppend(refine, u, Zeros(z));
    CorrectionsOfZeros(refine, z);
    assert cs + [] == cs;
    PreparedAppend(refine, b, k, u, Zeros(z), p1);
    DoneAppend(b, k, u, Zeros(z), p1);
    DoneZeros(refine, Done(b, k, u, p1), k + |u|, z, p1);
    NoneFreshMode(refine, z);
    SkipList(refine, b, k, w, r, se, p1, s, pos);
    assert Done(b, k, w, p1) == Done(b, k, u, p1) && k + |w| == k + |u| + z;
    StopAtZero(refine, Done(b, k, u, p1), k + |u| + z, se, p1, s, pos + |cs|);
  }

  lemma NoneFreshMode(refine: bool, n: nat)
    ensures NoneFresh(refine, Zeros(n))
  {
    ZerosInZeros(n);
  }

  /** A run of sixteen zeros moves the decoder past the sixteenth one. */
  lemma ZrlParsed(refine: bool, t: Table, dc: CTable, ac: CTable, b: Zigzag, k: nat, u: seq<int>, se: nat, p1: nat,
                  s: seq<bit>, pos: nat)
    requires Tables(t, dc, ac) && WellFormed(t) && Upto(t.bits, 16) <= 256
    requires |dc.ehufco| == |dc.ehufsi| == |ac.ehufco| == |ac.ehufsi| == 256
    requires 0 < p1 && se < 64 && NoneFresh(refine, u) && ZerosIn(u) <= 15
    requires k + |u| + (16 - ZerosIn(u)) <= se + 1
    requires Prepared(refine, b, k, u + Zeros(16 - ZerosIn(u)), p1)
    requires var ks := [AcSymbol(0xF0)] + BitTokens(Corrections(refine, u));
      HaveCodes(ks, dc, ac) && Holds(s, pos, TokensBits(ks, dc, ac))
    ensures Band(refine, t, b, k, se, p1, s, pos)
         == Band(refine, t, Done(b, k, u, p1), k + |u| + (16 - ZerosIn(u)), se, p1, s,
                 pos + |TokensBits([AcSymbol(0xF0)] + BitTokens(Corrections(refine, u)), dc, ac)|)
  {
    hide Done, Correct, Before, Fresh, Skip, Holds, Prepared, Corrections, Decode, TokensBits, HaveCodes, Matching,
      Rest, Word;
    var cs, z: nat := Corrections(refine, u), 15 - ZerosIn(u);
    var sym := [AcSymbol(0xF0)];
    TokensAppend(sym, BitTokens(cs), dc, ac);
    OneToken(sym[0], dc, ac);
    BitTokensBits(cs, dc, ac);
    HoldsSplit(s, pos, TokensBits(sym, dc, ac), cs);
    SymbolDecoded(t, ac, 0xF0, s, pos);
    ZerosSnoc(z);
    Regroup(u, Zeros(z), [0]);
    PreparedAppend(refine, b, k, u + Zeros(z), [0], p1);
    PreparedZero(refine, b, k + |u| + z, p1);
    PassRun(refine, b, k, u, 15, se, p1, s, pos + |TokensBits(sym, dc, ac)|);
    assert 0xF0 / 16 == 15 && 0xF0 % 16 == 0;
  }

  lemma {:induction false} ZerosSnoc(n: nat)
    ensures Zeros(n + 1) == Zeros(n) + [0]
  {
    if n != 0 {
      ZerosSnoc(n - 1);
    }
  }

  lemma PreparedZero(refine: bool, b: Zigzag, k: nat, p1: nat)
    requires Prepared(refine, b, k, [0], p1)
    ensures k < 64 && b[k] == 0
  {
    assert b[k + 0] == Before(refine, [0][0], p1);
  }

  /** The new value is the one that was sent. */
  lemma NewValueSent(refine: bool, x: int, p1: nat, s: seq<bit>, pos: nat)
    requires Fresh(refine, x) && InCoef(x * p1)
    requires Holds(s, pos, Word(Complemented(x) % Pow2(Category(x)), Category(x)))
    ensures 0 < Category(x) && NewValue(refine, Category(x), p1, s, pos) == x * p1
    ensures NewSize(refine, Category(x)) == Category(x)
  {
    CategoryZero(x);
    ExtraDecoded(x, s, pos);
    hide Word, Holds;
    if refine {
      hide Extend;
      assert Category(x) == 1;
      assert Extend(Window(s, pos, 1), 1) == if BitAt(s, pos) == 1 then 1 else -1 by {
        OneBit(s, pos);
      }
    }
  }

  lemma OneBit(s: seq<bit>, pos: nat)
    ensures Extend(Window(s, pos, 1), 1) == if BitAt(s, pos) == 1 then 1 else -1
  {
    assert Pow2(0) == 1 && Pow2(1) == 2;
    assert Window(s, pos, 0) == 0;
  }

  /** A new coefficient after `w`. */
  lemma FreshParsed(refine: bool, t: Table, dc: CTable, ac: CTable, b: Zigzag, k: nat, w: seq<int>, x: int, se: nat,
                    p1: nat, s: seq<bit>, pos: nat)
    requires Tables(t, dc, ac) && WellFormed(t) && Upto(t.bits, 16) <= 256
    requires |dc.ehufco| == |dc.ehufsi| == |ac.ehufco| == |ac.ehufsi| == 256
    requires 0 < p1 && se < 64 && NoneFresh(refine, w) && ZerosIn(w) <= 15 && Fresh(refine, x) && Category(x) <= 15
    requires k + |w| <= se && Prepared(refine, b, k, w + [x], p1)
    requires var ks := Coef(ZerosIn(w), x) + BitTokens(Corrections(refine, w));
      HaveCodes(ks, dc, ac) && Holds(s, pos, TokensBits(ks, dc, ac))
    ensures Band(refine, t, b, k, se, p1, s, pos)
         == Band(refine, t, Done(b, k, w + [x], p1), k + |w| + 1, se, p1, s,
                 pos + |TokensBits(Coef(ZerosIn(w), x) + BitTokens(Corrections(refine, w)), dc, ac)|)
  {
    hide Done, Correct, Skip, Holds, Prepared, Corrections, Decode, TokensBits, HaveCodes, Matching, Fresh,
      Rest, Word, NewValue, NewSize, Category, Before, Pow2, Complemented, InCoef;
    var cs, z, n := Corrections(refine, w), ZerosIn(w), Category(x);
    var sym, ext := [AcSymbol(16 * z + n)], [Extra(Complemented(x), n)];
    var coef := Coef(z, x);
    assert coef == sym + ext;
    TokensAppend(coef, BitTokens(cs), dc, ac);
    TokensAppend(sym, ext, dc, ac);
    OneToken(sym[0], dc, ac);
    OneToken(ext[0], dc, ac);
    BitTokensBits(cs, dc, ac);
    HoldsSplit(s, pos, TokensBits(coef, dc, ac), cs);
    HoldsSplit(s, pos, TokensBits(sym, dc, ac), TokensBits(ext, dc, ac));
    SymbolDecoded(t, ac, 16 * z + n, s, pos);
    PreparedAppend(refine, b, k, w, [x], p1);
    PreparedFresh(refine, b, k + |w|, x, p1);
    NewValueSent(refine, x, p1, s, pos + |TokensBits(sym, dc, ac)|);
    PassRun2(refine, b, k, w, se, p1, s, pos + |TokensBits(coef, dc, ac)|);
    DoneAppend(b, k, w, [x], p1);
    DoneOne(Done(b, k, w, p1), k + |w|, x, p1);
    assert (16 * z + n) / 16 == z && (16 * z + n) % 16 == n;
  }

  lemma PassRun2(refine: bool, b: Zigzag, k: nat, w: seq<int>, se: nat, p1: nat, s: seq<bit>, pos: nat)
    requires 0 < p1 && se < 64 && NoneFresh(refine, w) && k + |w| <= se && Prepared(refine, b, k, w, p1)
    requires b[k + |w|] == 0 && Holds(s, pos, Corrections(refine, w))
    ensures Skip(refine, b, k, ZerosIn(w), se, p1, s, pos)
         == (Done(b, k, w, p1), k + |w|, pos + |Corrections(refine, w)|)
  {
    assert w + Zeros(0) == w;
    PassRun(refine, b, k, w, ZerosIn(w), se, p1, s, pos);
  }

  lemma PreparedFresh(refine: bool, b: Zigzag, k: nat, x: int, p1: nat)
    requires Prepared(refine, b, k, [x], p1) && Fresh(refine, x)
    ensures k < 64 && b[k] == 0 && InCoef(x * p1)
  {
    assert b[k + 0] == Before(refine, [x][0], p1) && InCoef([x][0] * p1);
  }

  lemma DoneOne(b: Zigzag, k: nat, x: int, p1: nat)
    requires k < 64
    ensures Done(b, k, [x], p1) == b[k := x * p1]
  {
  }

  // ------------------------------------------------- a band up to the last fresh one

  lemma {:induction false} ZerosSplit(m: nat, n: nat)
    ensures Zeros(m + n) == Zeros(m) + Zeros(n)
  {
    if m == 0 {
      assert Zeros(0) + Zeros(n) == Zeros(n);
    } else {
      ZerosSplit(m - 1, n);
      Regroup([0], Zeros(m - 1), Zeros(n));
    }
  }

  /** Runs of sixteen zeros without correction bits. */
  lemma {:induction false} ZrlsOnly(refine: bool, t: Table, dc: CTable, ac: CTable, b: Zigzag, k: nat, r: nat, se: nat,
                                    p1: nat, s: seq<bit>, pos: nat)
    requires Tables(t, dc, ac) && WellFormed(t) && Upto(t.bits, 16) <= 256
    requires |dc.ehufco| == |dc.ehufsi| == |ac.ehufco| == |ac.ehufsi| == 256
    requires 0 < p1 && se < 64 && k + r <= se + 1 && Prepared(refine, b, k, Zeros(r), p1)
    requires HaveCodes(Zrls(r), dc, ac) && Holds(s, pos, TokensBits(Zrls(r), dc, ac))
    ensures Band(refine, t, b, k, se, p1, s, pos)
         == Band(refine, t, b, k + (r - r % 16), se, p1, s, pos + |TokensBits(Zrls(r), dc, ac)|)
    decreases r
  {
    hide Done, Holds, Prepared, Band, TokensBits, HaveCodes, Tables, Corrections, Zeros;
    if r <= 15 {
      NoToken(dc, ac);
    } else {
      var z := [AcSymbol(0xF0)];
      TokensAppend(z, Zrls(r - 16), dc, ac);
      HoldsSplit(s, pos, TokensBits(z, dc, ac), TokensBits(Zrls(r - 16), dc, ac));
      ZerosSplit(16, r - 16);
      PreparedAppend(refine, b, k, Zeros(16), Zeros(r - 16), p1);
      EmptyRun(refine, b, k, p1);
      assert z + BitTokens([]) == z && [] + Zeros(16) == Zeros(16);
      ZrlParsed(refine, t, dc, ac, b, k, [], se, p1, s, pos);
      ZrlsOnly(refine, t, dc, ac, b, k + 16, r - 16, se, p1, s, pos + |TokensBits(z, dc, ac)|);
    }
  }

  lemma EmptyRun(refine: bool, b: Zigzag, k: nat, p1: nat)
    requires k <= 64
    ensures Done(b, k, [], p1) == b && Corrections(refine, []) == [] && ZerosIn([]) == 0 && NoneFresh(refine, [])
  {
  }

  /** The state between symbols: the decoder is at `k`, and the encoder has seen `u` and
      `m` zeros since. */
  ghost predicate Halfway(refine: bool, b: Zigzag, k: nat, u: seq<int>, m: nat, c: seq<int>, se: nat, p1: nat)
  {
    && 0 < p1 && se < 64 && k + |u| + m + |c| <= se + 1 && NoneFresh(refine, u) && ZerosIn(u) <= 15
    && Prepared(refine, b, k, u + Zeros(m) + c, p1)
  }

  lemma ManyRuns(refine: bool, t: Table, dc: CTable, ac: CTable, b: Zigzag, k: nat, u: seq<int>, m: nat, c: seq<int>,
                 se: nat, p1: nat, s: seq<bit>, pos: nat)
    requires Tables(t, dc, ac) && WellFormed(t) && Upto(t.bits, 16) <= 256
    requires |dc.ehufco| == |dc.ehufsi| == |ac.ehufco| == |ac.ehufsi| == 256
    requires 0 < p1 && se < 64 && k + |u| + m + |c| <= se + 1 && NoneFresh(refine, u) && ZerosIn(u) <= 15
    requires Prepared(refine, b, k, u + Zeros(m) + c, p1) && ZerosIn(u) + m > 15
    requires var ks := ZrlTokens(ZerosIn(u) + m, Corrections(refine, u));
      HaveCodes(ks, dc, ac) && Holds(s, pos, TokensBits(ks, dc, ac))
    ensures var j := (ZerosIn(u) + m) % 16; var d, k1 := Done(b, k, u, p1), k + |u| + m - j;
      && j <= m && Prepared(refine, d, k1, Zeros(j) + c, p1)
      && Done(d, k1, Zeros(j) + c, p1) == Done(b, k, u + Zeros(m) + c, p1)
      && Band(refine, t, b, k, se, p1, s, pos)
         == Band(refine, t, d, k1, se, p1, s,
                 pos + |TokensBits(ZrlTokens(ZerosIn(u) + m, Corrections(refine, u)), dc, ac)|)
  {
    hide Done, Holds, Prepared, Band, TokensBits, HaveCodes, Tables, Corrections, Zeros, ZerosIn, NoneFresh, Zrls;
    var r, cs := ZerosIn(u) + m, Corrections(refine, u);
    var first, rest := [AcSymbol(0xF0)] + BitTokens(cs), Zrls(r - 16);
    var z: nat, n: nat, j: nat := 16 - ZerosIn(u), r - 16, r % 16;
    assert n % 16 == j && z + (n - j) + j == m;
    Regroup([AcSymbol(0xF0)], BitTokens(cs), rest);
    assert ZrlTokens(r, cs) == first + rest;
    TokensAppend(first, rest, dc, ac);
    HoldsSplit(s, pos, TokensBits(first, dc, ac), TokensBits(rest, dc, ac));
    SplitRun(refine, b, k, u, z, n - j, j, c, p1);
    ZrlParsed(refine, t, dc, ac, b, k, u, se, p1, s, pos);
    ZrlsOnly(refine, t, dc, ac, Done(b, k, u, p1), k + |u| + z, n, se, p1, s, pos + |TokensBits(first, dc, ac)|);
    assert k + |u| + z + (n - j) == k + |u| + m - j;
  }

  /** After its runs of sixteen zeros the decoder is at `k1`, with fewer zeros to come. */
  lemma RunsParsed(refine: bool, t: Table, dc: CTable, ac: CTable, b: Zigzag, k: nat, u: seq<int>, m: nat,
                   c: seq<int>, se: nat, p1: nat, s: seq<bit>, pos: nat)
    returns (b1: Zigzag, k1: nat, w: seq<int>)
    requires Tables(t, dc, ac) && WellFormed(t) && Upto(t.bits, 16) <= 256
    requires |dc.ehufco| == |dc.ehufsi| == |ac.ehufco| == |ac.ehufsi| == 256
    requires Halfway(refine, b, k, u, m, c, se, p1)
    requires var ks := ZrlTokens(ZerosIn(u) + m, Corrections(refine, u));
      HaveCodes(ks, dc, ac) && Holds(s, pos, TokensBits(ks, dc, ac))
    ensures Halfway(refine, b1, k1, w, 0, c, se, p1) && k1 + |w| == k + |u| + m
    ensures ZerosIn(w) == (ZerosIn(u) + m) % 16
    ensures Corrections(refine, w) == LeftOver(ZerosIn(u) + m, Corrections(refine, u))
    ensures Done(b1, k1, w + c, p1) == Done(b, k, u + Zeros(m) + c, p1)
    ensures Band(refine, t, b, k, se, p1, s, pos)
         == Band(refine, t, b1, k1, se, p1, s,
                 pos + |TokensBits(ZrlTokens(ZerosIn(u) + m, Corrections(refine, u)), dc, ac)|)
  {
    hide Done, Holds, Prepared, Band, TokensBits, HaveCodes, Tables, Corrections, Zeros, ZerosIn, NoneFresh;
    var r := ZerosIn(u) + m;
    WholeRun(refine, u, m);
    EmptyRun(refine, b, k, p1);
    if r <= 15 {
      NoToken(dc, ac);
      b1, k1, w := b, k, u + Zeros(m);
    } else {
      var j := r % 16;
      ManyRuns(refine, t, dc, ac, b, k, u, m, c, se, p1, s, pos);
      b1, k1, w := Done(b, k, u, p1), k + |u| + m - j, Zeros(j);
      WholeRun(refine, [], j);
      assert [] + Zeros(j) == Zeros(j);
    }
  }

  lemma ZerosNone()
    ensures Zeros(0) == []
  {
  }

  /** No sixteen zeros yet. */
  lemma WholeRun(refine: bool, u: seq<int>, m: nat)
    requires NoneFresh(refine, u)
    ensures NoneFresh(refine, u + Zeros(m)) && ZerosIn(u + Zeros(m)) == ZerosIn(u) + m
    ensures Corrections(refine, u + Zeros(m)) == Corrections(refine, u)
    ensures forall c: seq<int> :: u + Zeros(m) + Zeros(0) + c == u + Zeros(m) + c
  {
    hide *;
    ZerosNone();
    ZerosInZeros(m);
    ZerosInAppend(u, Zeros(m));
    NoneFreshMode(refine, m);
    NoneFreshAppend(refine, u, Zeros(m));
    CorrectionsAppend(refine, u, Zeros(m));
    CorrectionsOfZeros(refine, m);
    assert Corrections(refine, u) + [] == Corrections(refine, u);
    assert forall c: seq<int> :: u + Zeros(m) + [] + c == u + Zeros(m) + c;
  }

  lemma SplitRun(refine: bool, b: Zigzag, k: nat, u: seq<int>, x: nat, y: nat, z: nat, c: seq<int>, p1: nat)
    requires k + |u| + (x + y + z) + |c| <= 64
    requires Prepared(refine, b, k, u + Zeros(x + y + z) + c, p1)
    ensures Prepared(refine, b, k, u + Zeros(x), p1)
    ensures Prepared(refine, Done(b, k, u, p1), k + |u| + x, Zeros(y + z), p1)
    ensures Prepared(refine, Done(b, k, u, p1), k + |u| + x + y, Zeros(z) + c, p1)
    ensures Done(Done(b, k, u, p1), k + |u| + x + y, Zeros(z) + c, p1) == Done(b, k, u + Zeros(x + y + z) + c, p1)
  {
    hide *;
    var d, tail := Done(b, k, u, p1), Zeros(z) + c;
    ZerosSplit(x, y + z);
    ZerosSplit(y, z);
    assert u + Zeros(x + y + z) + c == u + (Zeros(x) + (Zeros(y) + tail));
    PreparedAppend(refine, b, k, u, Zeros(x) + (Zeros(y) + tail), p1);
    DoneAppend(b, k, u, Zeros(x) + (Zeros(y) + tail), p1);
    PreparedAppend(refine, d, k + |u|, Zeros(x), Zeros(y) + tail, p1);
    DoneAppend(d, k + |u|, Zeros(x), Zeros(y) + tail, p1);
    DoneZeros(refine, d, k + |u|, x, p1);
    PreparedAppend(refine, d, k + |u| + x, Zeros(y), tail, p1);
    DoneAppend(d, k + |u| + x, Zeros(y), tail, p1);
    DoneZeros(refine, d, k + |u| + x, y, p1);
    Regroup(Zeros(y), Zeros(z), c);
    PreparedAppend(refine, d, k + |u| + x, Zeros(y) + Zeros(z), c, p1);
    Regroup(u, Zeros(x), Zeros(y) + tail);
    PreparedAppend(refine, b, k, u + Zeros(x), Zeros(y) + tail, p1);
  }

  lemma HalfwayZero(refine: bool, b: Zigzag, k: nat, u: seq<int>, m: nat, c: seq<int>, se: nat, p1: nat)
    requires Halfway(refine, b, k, u, m, c, se, p1) && c != [] && c[0] == 0
    ensures Halfway(refine, b, k, u, m + 1, c[1..], se, p1)
    ensures u + Zeros(m + 1) + c[1..] == u + Zeros(m) + c
  {
    hide Zeros, Prepared, NoneFresh, ZerosIn;
    ZerosSnoc(m);
    assert c == [0] + c[1..];
    assert u + (Zeros(m) + [0]) + c[1..] == u + Zeros(m) + ([0] + c[1..]);
  }

  lemma HalfwayOld(refine: bool, b: Zigzag, k: nat, w: seq<int>, c: seq<int>, se: nat, p1: nat)
    requires Halfway(refine, b, k, w, 0, c, se, p1) && c != [] && Old(refine, c[0])
    ensures Halfway(refine, b, k, w + [c[0]], 0, c[1..], se, p1)
    ensures (w + [c[0]]) + Zeros(0) + c[1..] == w + c
    ensures ZerosIn(w + [c[0]]) == ZerosIn(w)
    ensures Corrections(refine, w + [c[0]]) == Corrections(refine, w) + [Abs(c[0]) % 2]
  {
    hide Zeros, Prepared, ZerosIn, Corrections, NoneFresh;
    ZerosNone();
    var x := c[0];
    assert c == [x] + c[1..];
    assert w + [] + ([x] + c[1..]) == (w + [x]) + [] + c[1..];
    ZerosInAppend(w, [x]);
    ZerosInOne(x);
    NoneFreshAppend(refine, w, [x]);
    OneNotFresh(refine, x);
    CorrectionsAppend(refine, w, [x]);
    OneCorrection(refine, x);
  }

  lemma ZerosInOne(x: int)
    ensures ZerosIn([x]) == if x == 0 then 1 else 0
  {
    assert [x][1..] == [];
  }

  lemma OneNotFresh(refine: bool, x: int)
    requires Old(refine, x)
    ensures NoneFresh(refine, [x])
  {
  }

  lemma OneCorrection(refine: bool, x: int)
    requires Old(refine, x)
    ensures Corrections(refine, [x]) == [Abs(x) % 2]
  {
    assert [x][1..] == [];
  }

  lemma HalfwayFresh(refine: bool, b: Zigzag, k: nat, w: seq<int>, c: seq<int>, se: nat, p1: nat)
    requires Halfway(refine, b, k, w, 0, c, se, p1) && c != []
    ensures Prepared(refine, b, k, w + [c[0]], p1)
    ensures Halfway(refine, Done(b, k, w + [c[0]], p1), k + |w| + 1, [], 0, c[1..], se, p1)
    ensures Done(Done(b, k, w + [c[0]], p1), k + |w| + 1, [] + Zeros(0) + c[1..], p1) == Done(b, k, w + c, p1)
  {
    hide Zeros, Prepared, ZerosIn, Corrections, NoneFresh, Done;
    ZerosNone();
    var x, rest := c[0], c[1..];
    assert c == [x] + rest;
    assert w + [] + ([x] + rest) == (w + [x]) + rest && w + ([x] + rest) == (w + [x]) + rest;
    assert [] + [] + rest == rest;
    PreparedAppend(refine, b, k, w + [x], rest, p1);
    DoneAppend(b, k, w + [x], rest, p1);
    EmptyRun(refine, b, k, p1);
  }

  predicate SmallFresh(refine: bool, c: seq<int>)
  {
    forall i :: 0 <= i < |c| ==> Fresh(refine, c[i]) ==> Category(c[i]) <= 15
  }

  lemma FrontStep(refine: bool, c: seq<int>, r: nat, br: seq<bit>)
    ensures c == [] ==> FrontTokens(refine, c, r, br) == []
    ensures c != [] && c[0] == 0 ==> FrontTokens(refine, c, r, br) == FrontTokens(refine, c[1..], r + 1, br)
    ensures c != [] && Old(refine, c[0]) ==>
              FrontTokens(refine, c, r, br)
              == ZrlTokens(r, br) + FrontTokens(refine, c[1..], r % 16, LeftOver(r, br) + [Abs(c[0]) % 2])
    ensures c != [] && Fresh(refine, c[0]) ==>
              FrontTokens(refine, c, r, br)
              == ZrlTokens(r, br) + ((Coef(r % 16, c[0]) + BitTokens(LeftOver(r, br)))
                                     + FrontTokens(refine, c[1..], 0, []))
  {
    if c != [] && Fresh(refine, c[0]) {
      Regroup(Coef(r % 16, c[0]), BitTokens(LeftOver(r, br)), FrontTokens(refine, c[1..], 0, []));
    }
  }

  /** Everything up to the last fresh coefficient comes back. */
  lemma {:induction false} FrontParsed(refine: bool, t: Table, dc: CTable, ac: CTable, b: Zigzag, k: nat, u: seq<int>,
                                       m: nat, c: seq<int>, se: nat, p1: nat, s: seq<bit>, pos: nat)
    requires Tables(t, dc, ac) && WellFormed(t) && Upto(t.bits, 16) <= 256
    requires |dc.ehufco| == |dc.ehufsi| == |ac.ehufco| == |ac.ehufsi| == 256
    requires Halfway(refine, b, k, u, m, c, se, p1) && SmallFresh(refine, c)
    requires if c == [] then u == [] && m == 0 else Fresh(refine, c[|c| - 1])
    requires var ks := FrontTokens(refine, c, ZerosIn(u) + m, Corrections(refine, u));
      HaveCodes(ks, dc, ac) && Holds(s, pos, TokensBits(ks, dc, ac))
    ensures Band(refine, t, b, k, se, p1, s, pos)
         == Band(refine, t, Done(b, k, u + Zeros(m) + c, p1), k + |u| + m + |c|, se, p1, s,
                 pos + |TokensBits(FrontTokens(refine, c, ZerosIn(u) + m, Corrections(refine, u)), dc, ac)|)
    decreases |c|, 1
  {
    hide Done, Holds, Prepared, Band, TokensBits, HaveCodes, Tables, Corrections, Zeros, ZerosIn, NoneFresh, Category,
      FrontTokens, ZrlTokens, Coef, BitTokens, Halfway;
    HalfwayBounds(refine, b, k, u, m, c, se, p1);
    var r, cs := ZerosIn(u) + m, Corrections(refine, u);
    FrontStep(refine, c, r, cs);
    if c == [] {
      ZerosNone();
      EmptyRun(refine, b, k, p1);
      NoToken(dc, ac);
      assert u + Zeros(m) + c == [];
    } else if c[0] == 0 {
      HalfwayZero(refine, b, k, u, m, c, se, p1);
      FrontParsed(refine, t, dc, ac, b, k, u, m + 1, c[1..], se, p1, s, pos);
    } else {
      var runs, br := ZrlTokens(r, cs), LeftOver(r, cs);
      var rest := FrontTokens(refine, c[1..], if Old(refine, c[0]) then r % 16 else 0,
                              if Old(refine, c[0]) then br + [Abs(c[0]) % 2] else []);
      var mid := if Old(refine, c[0]) then [] else Coef(r % 16, c[0]) + BitTokens(br);
      assert FrontTokens(refine, c, r, cs) == runs + (mid + rest) by {
        assert [] + rest == rest;
      }
      TokensAppend(runs, mid + rest, dc, ac);
      TokensAppend(mid, rest, dc, ac);
      HoldsSplit(s, pos, TokensBits(runs, dc, ac), TokensBits(mid, dc, ac) + TokensBits(rest, dc, ac));
      HoldsSplit(s, pos + |TokensBits(runs, dc, ac)|, TokensBits(mid, dc, ac), TokensBits(rest, dc, ac));
      var b1, k1, w := RunsParsed(refine, t, dc, ac, b, k, u, m, c, se, p1, s, pos);
      NextParsed(refine, t, dc, ac, b1, k1, w, c, se, p1, s, pos + |TokensBits(runs, dc, ac)|, mid, rest);
    }
  }

  lemma {:induction false} NextParsed(refine: bool, t: Table, dc: CTable, ac: CTable, b: Zigzag, k: nat, w: seq<int>,
                                      c: seq<int>, se: nat, p1: nat, s: seq<bit>, pos: nat, mid: seq<Token>,
                                      rest: seq<Token>)
    requires Tables(t, dc, ac) && WellFormed(t) && Upto(t.bits, 16) <= 256
    requires |dc.ehufco| == |dc.ehufsi| == |ac.ehufco| == |ac.ehufsi| == 256
    requires Halfway(refine, b, k, w, 0, c, se, p1) && SmallFresh(refine, c)
    requires c != [] && c[0] != 0 && Fresh(refine, c[|c| - 1])
    requires mid == if Old(refine, c[0]) then [] else Coef(ZerosIn(w), c[0]) + BitTokens(Corrections(refine, w))
    requires rest == FrontTokens(refine, c[1..], if Old(refine, c[0]) then ZerosIn(w) else 0,
                                 if Old(refine, c[0]) then Corrections(refine, w) + [Abs(c[0]) % 2] else [])
    requires HaveCodes(mid, dc, ac) && Holds(s, pos, TokensBits(mid, dc, ac))
    requires HaveCodes(rest, dc, ac) && Holds(s, pos + |TokensBits(mid, dc, ac)|, TokensBits(rest, dc, ac))
    ensures k + |w| + |c| <= se + 1 && se < 64
    ensures Band(refine, t, b, k, se, p1, s, pos)
         == Band(refine, t, Done(b, k, w + c, p1), k + |w| + |c|, se, p1, s,
                 pos + |TokensBits(mid, dc, ac)| + |TokensBits(rest, dc, ac)|)
    decreases |c|, 0
  {
    hide Done, Holds, Prepared, Band, TokensBits, HaveCodes, Tables, Corrections, Zeros, ZerosIn, NoneFresh, Category,
      FrontTokens, ZrlTokens, Coef, BitTokens, Halfway;
    HalfwayBounds(refine, b, k, w, 0, c, se, p1);
    assert SmallFresh(refine, c[1..]);
    var at := pos + |TokensBits(mid, dc, ac)|;
    if Old(refine, c[0]) {
      NoToken(dc, ac);
      HalfwayOld(refine, b, k, w, c, se, p1);
      FrontParsed(refine, t, dc, ac, b, k, w + [c[0]], 0, c[1..], se, p1, s, at);
    } else {
      HalfwayFresh(refine, b, k, w, c, se, p1);
      FreshParsed(refine, t, dc, ac, b, k, w, c[0], se, p1, s, pos);
      EmptyRun(refine, b, k, p1);
      FrontParsed(refine, t, dc, ac, Done(b, k, w + [c[0]], p1), k + |w| + 1, [], 0, c[1..], se, p1, s, at);
    }
  }

  lemma HalfwayBounds(refine: bool, b: Zigzag, k: nat, w: seq<int>, m: nat, c: seq<int>, se: nat, p1: nat)
    requires Halfway(refine, b, k, w, m, c, se, p1)
    ensures 0 < p1 && se < 64 && k + |w| + m + |c| <= se + 1 && NoneFresh(refine, w) && ZerosIn(w) <= 15
  {
  }
}
