/** The bits of Huffman-coded blocks spelled out, with the numbers of jchuff.c and jdhuff.c: which
    symbols a block needs, and how a value's bits follow its symbol (T.81 sections F.1.2 and G.1.2). */
module HuffmanSpelled {
  import opened Powers
  import opened Bytes
  import opened BitStreams
  import opened Coefficients
  import opened HuffmanCode
  import opened HuffmanTables
  import opened HuffmanBlock
  import opened ProgressiveTokens
  import opened ProgressiveBand
  import opened HuffmanScan

  // ------------------------------------------------------------ bits of numbers

  lemma HalfFirst(v: nat, p: nat)
    requires 0 < p
    ensures v / 2 / p == v / (2 * p)
  {
    var q, r := v / 2 / p, v / 2 % p;
    MulShuffle(q, 2, p);
    QuotientIs(v, 2 * p, q, 2 * r + v % 2);
  }

  /** Bits are sent from the most significant one on. */
  lemma {:induction false} WordAt(v: nat, n: nat, i: nat)
    requires i < n
    ensures Word(v, n)[i] == v / Pow2(n - 1 - i) % 2
    decreases n
  {
    if i < n - 1 {
      WordAt(v / 2, n - 1, i);
      HalfFirst(v, Pow2(n - 2 - i));
    }
  }

  /** Bytes are sent from their most significant bit on. */
  lemma UnpackAt(code: seq<byte>, k: nat)
    requires k < 8 * |code|
    ensures Unpack(code)[k] == code[k / 8] / Pow2(7 - k % 8) % 2
  {
    hide Unpack, Word;
    UnpackHolds(code, k / 8);
    WordAt(code[k / 8], 8, k % 8);
    assert Unpack(code)[8 * (k / 8) + k % 8] == Word(code[k / 8], 8)[k % 8];
  }

  lemma {:induction false} ComplementWord(m: nat, n: nat)
    requires m < Pow2(n)
    ensures forall i :: 0 <= i < n ==> Word(Pow2(n) - 1 - m, n)[i] == 1 - Word(m, n)[i]
  {
    if n != 0 {
      ComplementWord(m / 2, n - 1);
      var v := Pow2(n) - 1 - m;
      assert v / 2 == Pow2(n - 1) - 1 - m / 2 && v % 2 == 1 - m % 2;
    }
  }

  /** The number in a window has the bits of the stream. */
  lemma {:induction false} WindowWord(s: seq<bit>, pos: nat, n: nat)
    ensures forall i :: 0 <= i < n ==> Word(Window(s, pos, n), n)[i] == BitAt(s, pos + i)
  {
    if n != 0 {
      WindowWord(s, pos, n - 1);
      assert Window(s, pos, n) / 2 == Window(s, pos, n - 1);
    }
  }

  // ------------------------------------------------------------------ magnitudes

  /** `x` has `n` significant bits. */
  predicate Takes(x: int, n: nat)
  {
    if n == 0 then x == 0 else Pow2(n - 1) <= Abs(x) < Pow2(n)
  }

  /** The `n` low bits of the magnitude from the most significant one on, each of them
      complemented for a negative number. */
  function Magnitude(x: int, n: nat): (s: seq<bit>)
    ensures |s| == n
    ensures forall i :: 0 <= i < n ==>
              s[i] == if x < 0 then 1 - Abs(x) / Pow2(n - 1 - i) % 2 else Abs(x) / Pow2(n - 1 - i) % 2
  {
    seq(n, i requires 0 <= i < n =>
          if x < 0 then 1 - Abs(x) / Pow2(n - 1 - i) % 2 else Abs(x) / Pow2(n - 1 - i) % 2)
  }

  lemma CategoryTakes(x: int)
    ensures Takes(x, Category(x))
  {
    if x != 0 {
      LevelsBound(Abs(x));
    }
  }

  lemma TakesOne(x: int, m: nat, n: nat)
    requires Takes(x, m) && Takes(x, n)
    ensures m == n
  {
    if m < n {
      Pow2Monotone(m, n - 1);
    } else if n < m {
      Pow2Monotone(n, m - 1);
    }
  }

  lemma CategoryIs(x: int, n: nat)
    ensures Category(x) == n <==> Takes(x, n)
  {
    CategoryTakes(x);
    if Takes(x, n) {
      TakesOne(x, n, Category(x));
    }
  }

  lemma MagnitudeWord(x: int, n: nat)
    requires Takes(x, n)
    ensures Word(if x < 0 then x + Pow2(n) - 1 else x, n) == Magnitude(x, n)
  {
    ComplementWord(Abs(x), n);
    forall i | 0 <= i < n
      ensures Word(if x < 0 then x + Pow2(n) - 1 else x, n)[i] == Magnitude(x, n)[i]
    {
      WordAt(Abs(x), n, i);
    }
  }

  /** The extra bits of a value are those of its magnitude, complemented for a negative value: the
      number sent is x, or x + 2^n - 1 for a negative x. */
  lemma ExtraSpelled(x: int, n: nat, dc: CTable, ac: CTable)
    requires |dc.ehufco| == |dc.ehufsi| == |ac.ehufco| == |ac.ehufsi| == 256
    requires x != 0 && Takes(x, n)
    ensures TokenBits(Extra(Complemented(x), n), dc, ac) == Magnitude(x, n)
    ensures Complemented(x) % Pow2(n) == if x < 0 then x + Pow2(n) - 1 else x
  {
    hide Pow2, Word, Magnitude;
    MagnitudeWord(x, n);
    var p: int := Pow2(n);
    if x > 0 {
      ModIs(x, p, 0, x);
    } else {
      ModIs(x - 1, p, -1, x - 1 + p);
    }
  }

  /** What a decoder makes of `n` bits is the value that has these bits: r, or r + 1 - 2^n if the
      first bit is 0, that is for r below 2^(n - 1). */
  lemma ExtendSpelled(s: seq<bit>, pos: nat, n: nat)
    requires 0 < n
    ensures var r, v := Window(s, pos, n), Extend(Window(s, pos, n), n);
      && v == (if r < Pow2(n - 1) then r + 1 - Pow2(n) else r)
      && (BitAt(s, pos) == 1 <==> v > 0) && Takes(v, n)
      && forall i :: 0 <= i < n ==> BitAt(s, pos + i) == Magnitude(v, n)[i]
  {
    var r, v := Window(s, pos, n), Extend(Window(s, pos, n), n);
    WindowSplit(s, pos, 1, n - 1);
    assert Window(s, pos, 1) == BitAt(s, pos) by {
      assert Window(s, pos, 0) == 0;
    }
    WindowWord(s, pos, n);
    MagnitudeWord(v, n);
    assert r == if v < 0 then v + Pow2(n) - 1 else v;
  }

  // ------------------------------------------------------------------ parsing

  /** A DC difference: nothing after symbol 0, else the value that has the symbol's bits. */
  lemma DcDiffSpelled(t: Table, s: seq<bit>, pos: nat)
    requires WellFormed(t) && Upto(t.bits, 16) <= 256
    ensures var (y, p) := Decode(t, s, pos);
      var (diff, q) := ParseDcDiff(t, s, pos);
      && q == p + y && Takes(diff, y)
      && (y > 0 && Window(s, p, y) < Pow2(y - 1) ==> diff == Window(s, p, y) + 1 - Pow2(y))
      && (y > 0 && Window(s, p, y) >= Pow2(y - 1) ==> diff == Window(s, p, y))
      && forall i :: 0 <= i < y ==> BitAt(s, p + i) == Magnitude(diff, y)[i]
  {
    hide Decode, Window, Extend, Pow2, Magnitude, Abs;
    var (y, p) := Decode(t, s, pos);
    if y > 0 {
      ExtendSpelled(s, p, y);
    }
  }

  /** An AC symbol 16 * r + n with n > 0: `r` zeros are passed, and the value that has the next `n`
      bits is stored after them.  Symbol 0xF0 passes sixteen zeros; any other symbol 16 * r ends the
      block. */
  lemma AcSpelled(t: Table, s: seq<bit>, pos: nat, k: nat, se: nat, b: Zigzag)
    requires Suits(t, k, se) && k <= se < 64
    ensures var (y, p) := Decode(t, s, pos);
      && (y == 0xF0 ==> ParseAc(t, s, pos, k, se, b) == ParseAc(t, s, p, k + 16, se, b))
      && (y != 0xF0 && y % 16 == 0 && y < 256 ==> ParseAc(t, s, pos, k, se, b) == (b, p))
      && (y % 16 != 0 && k + y / 16 <= se ==>
            exists x ::
              && Takes(x, y % 16) && (forall i :: 0 <= i < y % 16 ==> BitAt(s, p + i) == Magnitude(x, y % 16)[i])
              && ParseAc(t, s, pos, k, se, b)
                 == ParseAc(t, s, p + y % 16, k + y / 16 + 1, se, b[k + y / 16 := x]))
  {
    hide Decode, Window, Extend, Pow2, Magnitude, Takes;
    var (y, p) := Decode(t, s, pos);
    if y % 16 != 0 && k + y / 16 <= se {
      var x := Extend(Window(s, p, y % 16), y % 16);
      ExtendSpelled(s, p, y % 16);
      TakesCoef(x, y % 16);
      assert Place(k + y / 16, se) == k + y / 16;
      assert ToCoef(x) == x;
      assert ParseAc(t, s, pos, k, se, b) == ParseAc(t, s, p + y % 16, k + y / 16 + 1, se, b[k + y / 16 := x]);
    }
  }

  lemma TakesCoef(x: int, n: nat)
    requires Takes(x, n) && n <= 15
    ensures -0x8000 < x < 0x8000
  {
    Pow2Monotone(n, 15);
    Pow2Small();
  }

  /** A coefficient of a first pass is the value that has the symbol's bits, times 2^al; one of a
      refinement has magnitude 2^al, and is positive if its one bit is 1. */
  lemma NewSpelled(n: nat, p1: nat, s: seq<bit>, pos: nat)
    requires 0 < n && p1 <= 0x4000
    ensures exists x ::
      && Takes(x, n) && (forall i :: 0 <= i < n ==> BitAt(s, pos + i) == Magnitude(x, n)[i])
      && NewValue(false, n, p1, s, pos) == ToCoef(x * p1)
    ensures NewValue(true, n, p1, s, pos) == if BitAt(s, pos) == 1 then p1 else -(p1 as int)
  {
    hide *;
    ExtendSpelled(s, pos, n);
    var x := Extend(Window(s, pos, n), n);
    FirstValue(n, p1, s, pos);
    RefinedValue(n, p1, s, pos);
  }

  lemma FirstValue(n: nat, p1: nat, s: seq<bit>, pos: nat)
    requires 0 < n
    ensures NewValue(false, n, p1, s, pos) == ToCoef(Extend(Window(s, pos, n), n) * p1)
  {
    hide Extend, Window, ToCoef;
  }

  lemma RefinedValue(n: nat, p1: nat, s: seq<bit>, pos: nat)
    requires 0 < n && p1 <= 0x4000
    ensures NewValue(true, n, p1, s, pos) == if BitAt(s, pos) == 1 then p1 else -(p1 as int)
  {
    hide BitAt;
  }

  /** An AC symbol 16 * r with r < 15 in a progressive scan ends the bands of 2^r blocks and as many
      more as the next r bits say, this block being one of them. */
  lemma RunSpelled(refine: bool, t: Table, b: Zigzag, k: nat, se: nat, p1: nat, s: seq<bit>, pos: nat)
    requires 0 < p1 && k <= se < 64 && WellFormed(t) && Upto(t.bits, 16) <= 256
    ensures var (y, p) := Decode(t, s, pos);
      y % 16 == 0 && y / 16 < 15 ==>
        && Band(refine, t, b, k, se, p1, s, pos).1 + 1 == Pow2(y / 16) + Window(s, p, y / 16)
        && (Band(refine, t, b, k, se, p1, s, pos).0, Band(refine, t, b, k, se, p1, s, pos).2)
           == Rest(refine, b, k, se, p1, s, p + y / 16)
  {
    hide Decode, Rest, Window;
  }

  // ------------------------------------------------------------------ blocks

  function Symbol(t: CTable, y: nat): seq<bit>
    requires |t.ehufco| == |t.ehufsi| == 256 && y < 256
  {
    Word(t.ehufco[y], t.ehufsi[y])
  }

  function Times(w: seq<bit>, n: nat): (s: seq<bit>)
    ensures |s| == n * |w|
  {
    if n == 0 then [] else w + Times(w, n - 1)
  }

  /** Number of zeros right before position `i`. */
  function ZerosBefore(c: seq<int>, i: nat): (z: nat)
    requires i <= |c|
    ensures z <= i && forall j :: i - z <= j < i ==> c[j] == 0
    ensures z < i ==> c[i - z - 1] != 0
  {
    if i == 0 || c[i - 1] != 0 then 0 else 1 + ZerosBefore(c, i - 1)
  }

  /** Coefficients that take at most fifteen bits. */
  predicate Short(c: seq<int>)
  {
    forall i :: 0 <= i < |c| ==> Abs(c[i]) <= 0x7FFF
  }

  lemma ShortCategory(x: int)
    requires Abs(x) <= 0x7FFF
    ensures Category(x) <= 15
  {
    if x != 0 {
      Pow2Small();
      LevelsLimit(Abs(x), 15);
    }
  }

  /** A nonzero coefficient: 0xF0 for every sixteen zeros before it, the symbol of the zeros that
      remain and its number of bits, and these bits. */
  function CoefSpelled(c: seq<int>, i: nat, ac: CTable): seq<bit>
    requires i < |c| && Short(c) && |ac.ehufco| == |ac.ehufsi| == 256
  {
    if c[i] == 0 then []
    else
      var r, n := ZerosBefore(c, i), Category(c[i]);
      ShortCategory(c[i]);
      Times(Symbol(ac, 0xF0), r / 16) + (Symbol(ac, 16 * (r % 16) + n) + Magnitude(c[i], n))
  }

  function CoefsSpelled(c: seq<int>, i: nat, ac: CTable): seq<bit>
    requires i <= |c| && Short(c) && |ac.ehufco| == |ac.ehufsi| == 256
    decreases |c| - i
  {
    if i == |c| then [] else CoefSpelled(c, i, ac) + CoefsSpelled(c, i + 1, ac)
  }

  predicate EndsWithZero(c: seq<int>)
  {
    c != [] && c[|c| - 1] == 0
  }

  /** A block: number of bits and bits of the DC difference, the nonzero coefficients in order, and
      symbol 0 if zeros end the block. */
  function BlockSpelled(diff: int, c: seq<int>, dc: CTable, ac: CTable): seq<bit>
    requires |dc.ehufco| == |dc.ehufsi| == |ac.ehufco| == |ac.ehufsi| == 256
    requires Abs(diff) <= 0x7FFF && Short(c)
  {
    ShortCategory(diff);
    Symbol(dc, Category(diff)) + Magnitude(diff, Category(diff)) + CoefsSpelled(c, 0, ac)
    + if EndsWithZero(c) then Symbol(ac, 0) else []
  }

  /** A value's symbol and its bits. */
  lemma ValueSpelled(sym: Token, x: int, n: nat, dc: CTable, ac: CTable)
    requires |dc.ehufco| == |dc.ehufsi| == |ac.ehufco| == |ac.ehufsi| == 256
    requires x != 0 && Takes(x, n)
    ensures TokensBits([sym] + [Extra(Complemented(x), n)], dc, ac) == TokenBits(sym, dc, ac) + Magnitude(x, n)
  {
    hide TokenBits, Complemented, TokensBits, Takes, Magnitude;
    ExtraSpelled(x, n, dc, ac);
    TokensAppend([sym], [Extra(Complemented(x), n)], dc, ac);
    OneToken(sym, dc, ac);
    OneToken(Extra(Complemented(x), n), dc, ac);
  }

  lemma DcTokensSpelled(diff: int, dc: CTable, ac: CTable)
    requires |dc.ehufco| == |dc.ehufsi| == |ac.ehufco| == |ac.ehufsi| == 256
    requires Abs(diff) <= 0x7FFF
    ensures Category(diff) <= 15
    ensures TokensBits(DcTokens(diff), dc, ac) == Symbol(dc, Category(diff)) + Magnitude(diff, Category(diff))
  {
    hide Word, TokensBits, Magnitude, Category, Complemented;
    ShortCategory(diff);
    CategoryTakes(diff);
    CategoryZero(diff);
    if diff == 0 {
      OneToken(DcSymbol(0), dc, ac);
      assert [DcSymbol(0)] + [] == [DcSymbol(0)];
    } else {
      ValueSpelled(DcSymbol(Category(diff)), diff, Category(diff), dc, ac);
    }
  }

  lemma AcSymbolBits(y: nat, dc: CTable, ac: CTable)
    requires |dc.ehufco| == |dc.ehufsi| == |ac.ehufco| == |ac.ehufsi| == 256 && y < 256
    ensures TokensBits([AcSymbol(y)], dc, ac) == Symbol(ac, y)
  {
    OneToken(AcSymbol(y), dc, ac);
  }

  lemma {:induction false} ZrlsSpelled(r: nat, dc: CTable, ac: CTable)
    requires |dc.ehufco| == |dc.ehufsi| == |ac.ehufco| == |ac.ehufsi| == 256
    ensures TokensBits(Zrls(r), dc, ac) == Times(Symbol(ac, 0xF0), r / 16)
    decreases r
  {
    hide Word, TokensBits;
    if r > 15 {
      ZrlsSpelled(r - 16, dc, ac);
      AcSymbolBits(0xF0, dc, ac);
      TokensAppend([AcSymbol(0xF0)], Zrls(r - 16), dc, ac);
      assert (r - 16) / 16 == r / 16 - 1;
    } else {
      NoToken(dc, ac);
    }
  }

  lemma {:induction false} AcTokensSpelled(c: seq<int>, i: nat, dc: CTable, ac: CTable)
    requires i <= |c| && Short(c) && |dc.ehufco| == |dc.ehufsi| == |ac.ehufco| == |ac.ehufsi| == 256
    ensures TokensBits(AcTokens(c[i..], ZerosBefore(c, i)), dc, ac)
         == CoefsSpelled(c, i, ac) + if EndsWithZero(c) then Symbol(ac, 0) else []
    decreases |c| - i
  {
    hide Word, TokensBits, TokenBits, Magnitude, Category, Symbol, Times, Zrls, Coef, Abs;
    var z, rest := ZerosBefore(c, i), c[i..];
    var end := if EndsWithZero(c) then Symbol(ac, 0) else [];
    if i == |c| {
      NoToken(dc, ac);
      AcSymbolBits(0, dc, ac);
    } else {
      assert rest[0] == c[i] && rest[1..] == c[i + 1..];
      AcTokensSpelled(c, i + 1, dc, ac);
      if c[i] == 0 {
        assert [] + CoefsSpelled(c, i + 1, ac) == CoefsSpelled(c, i + 1, ac);
      } else {
        CoefTokensSpelled(c, i, dc, ac);
        ThreeParts(Zrls(z), Coef(z % 16, c[i]), AcTokens(c[i + 1..], 0), dc, ac);
        Regroup(CoefSpelled(c, i, ac), CoefsSpelled(c, i + 1, ac), end);
      }
    }
  }

  lemma ThreeParts(x: seq<Token>, y: seq<Token>, z: seq<Token>, dc: CTable, ac: CTable)
    requires |dc.ehufco| == |dc.ehufsi| == |ac.ehufco| == |ac.ehufsi| == 256
    ensures TokensBits(x + (y + z), dc, ac)
         == TokensBits(x, dc, ac) + TokensBits(y, dc, ac) + TokensBits(z, dc, ac)
  {
    hide *;
    TokensAppend(x, y + z, dc, ac);
    TokensAppend(y, z, dc, ac);
    Regroup(TokensBits(x, dc, ac), TokensBits(y, dc, ac), TokensBits(z, dc, ac));
  }

  lemma CoefTokensSpelled(c: seq<int>, i: nat, dc: CTable, ac: CTable)
    requires i < |c| && Short(c) && |dc.ehufco| == |dc.ehufsi| == |ac.ehufco| == |ac.ehufsi| == 256
    requires c[i] != 0
    ensures TokensBits(Zrls(ZerosBefore(c, i)), dc, ac) + TokensBits(Coef(ZerosBefore(c, i) % 16, c[i]), dc, ac)
         == CoefSpelled(c, i, ac)
  {
    hide Word, TokensBits, Magnitude, Category, Times, Zrls, Complemented;
    var z, n := ZerosBefore(c, i), Category(c[i]);
    ShortCategory(c[i]);
    CategoryTakes(c[i]);
    ZrlsSpelled(z, dc, ac);
    ValueSpelled(AcSymbol(16 * (z % 16) + n), c[i], n, dc, ac);
  }

  /** Every sequential block is sent as spelled out. */
  lemma BlockBitsAre(diff: int, c: seq<int>, dc: CTable, ac: CTable)
    requires |dc.ehufco| == |dc.ehufsi| == |ac.ehufco| == |ac.ehufsi| == 256
    requires Abs(diff) <= 0x7FFF && Short(c)
    ensures TokensBits(BlockTokens(diff, c), dc, ac) == BlockSpelled(diff, c, dc, ac)
  {
    hide Word, TokensBits, Magnitude, Category, DcTokens, AcTokens, CoefsSpelled, Symbol;
    DcTokensSpelled(diff, dc, ac);
    AcTokensSpelled(c, 0, dc, ac);
    assert c[0..] == c;
    TokensAppend(DcTokens(diff), AcTokens(c, 0), dc, ac);
    Regroup(Symbol(dc, Category(diff)) + Magnitude(diff, Category(diff)), CoefsSpelled(c, 0, ac),
            if EndsWithZero(c) then Symbol(ac, 0) else []);
  }

  /** The encoder refuses a DC difference above 2047 and an AC coefficient above 1023 in magnitude,
      and nothing else. */
  lemma InRangeIs(diff: int, c: seq<int>)
    ensures InRange(diff, c) <==> Abs(diff) <= 2047 && forall i :: 0 <= i < |c| ==> Abs(c[i]) <= 1023
  {
    Pow2Small();
    assert Pow2(11) == 2 * Pow2(10);
    CategoryUpTo(diff, 11);
    forall i | 0 <= i < |c|
      ensures Category(c[i]) <= 10 <==> Abs(c[i]) <= 1023
    {
      CategoryUpTo(c[i], 10);
    }
  }

  lemma CategoryUpTo(x: int, n: nat)
    requires 0 < n
    ensures Category(x) <= n <==> Abs(x) < Pow2(n)
  {
    if x != 0 {
      LevelsLimit(Abs(x), n);
    }
  }

  // -------------------------------------------------------- progressive AC scans

  /** A run of `run` blocks without further coefficients: the symbol of the number of bits n below
      its first one, the number in these n bits, and the correction bits of the blocks. */
  function RunBits(run: nat, s: seq<bit>, ac: CTable): seq<bit>
    requires |ac.ehufco| == |ac.ehufsi| == 256 && run <= 0x7FFF
  {
    if run == 0 then []
    else
      RunLevels(run);
      var n := Levels(run);
      Symbol(ac, 16 * n) + (Word(run - Pow2(n), n) + s)
  }

  lemma RunLevels(run: nat)
    requires 0 < run <= 0x7FFF
    ensures Levels(run) <= 14 && Pow2(Levels(run)) <= run < 2 * Pow2(Levels(run))
  {
    LevelsBound(run);
    Pow2Small();
    LevelsLimit(run, 15);
  }

  lemma EobSpelled(run: nat, s: seq<bit>, dc: CTable, ac: CTable)
    requires |dc.ehufco| == |dc.ehufsi| == |ac.ehufco| == |ac.ehufsi| == 256 && run <= 0x7FFF
    ensures TokensBits(Eob(run, s), dc, ac) == RunBits(run, s, ac)
  {
    hide Word, TokensBits, Levels, Pow2, BitTokens, Times;
    if run == 0 {
      NoToken(dc, ac);
    } else {
      RunLevels(run);
      var n := Levels(run);
      var sym, ext := [AcSymbol(16 * n)], if n == 0 then [] else [Extra(run, n)];
      BitTokensBits(s, dc, ac);
      TokensAppend(sym, ext + BitTokens(s), dc, ac);
      TokensAppend(ext, BitTokens(s), dc, ac);
      OneToken(AcSymbol(16 * n), dc, ac);
      ModIs(run, Pow2(n), 1, run - Pow2(n));
      if n == 0 {
        NoToken(dc, ac);
        assert Word(run - Pow2(n), n) == [];
      } else {
        OneToken(Extra(run, n), dc, ac);
      }
    }
  }

  /** The coefficients of a band from position `j` on, after `z` zeros and with correction bits `br`
      to send: sixteen zeros are sent as 0xF0, and the correction bits of the coefficients passed on
      the way; a coefficient that was zero so far as the symbol of its zeros and its number of bits,
      these bits, and the correction bits.  In a refinement magnitudes above one were nonzero before,
      and only their lowest bit is sent. */
  function BandSpelled(refine: bool, c: seq<int>, j: nat, z: nat, br: seq<bit>, ac: CTable): seq<bit>
    requires j <= |c| && z < 16 && (refine || Short(c)) && |ac.ehufco| == |ac.ehufsi| == 256
    decreases |c| - j
  {
    if j == |c| then []
    else if c[j] == 0 then
      if z == 15 then Symbol(ac, 0xF0) + br + BandSpelled(refine, c, j + 1, 0, [], ac)
      else BandSpelled(refine, c, j + 1, z + 1, br, ac)
    else if refine && Abs(c[j]) > 1 then BandSpelled(refine, c, j + 1, z, br + [Abs(c[j]) % 2], ac)
    else
      ShortCategory(c[j]);
      Symbol(ac, 16 * z + Category(c[j])) + Magnitude(c[j], Category(c[j])) + br
      + BandSpelled(refine, c, j + 1, 0, [], ac)
  }

  /** One more zero can complete one more run of sixteen. */
  lemma {:induction false} ZrlsNext(r: nat)
    requires r > 0
    ensures Zrls(r) == Zrls(r - 1) + if r % 16 == 0 then [AcSymbol(0xF0)] else []
  {
    if r > 16 {
      ZrlsNext(r - 16);
      Regroup([AcSymbol(0xF0)], Zrls(r - 17), if r % 16 == 0 then [AcSymbol(0xF0)] else []);
    }
  }

  lemma ZrlTokensNext(r: nat, br: seq<bit>, dc: CTable, ac: CTable)
    requires |dc.ehufco| == |dc.ehufsi| == |ac.ehufco| == |ac.ehufsi| == 256
    ensures TokensBits(ZrlTokens(r + 1, br), dc, ac)
         == TokensBits(ZrlTokens(r, br), dc, ac) + if r % 16 == 15 then Symbol(ac, 0xF0) + LeftOver(r, br) else []
    ensures r % 16 != 15 ==> LeftOver(r + 1, br) == LeftOver(r, br)
  {
    hide *;
    var more := if r % 16 == 15 then [AcSymbol(0xF0)] + BitTokens(LeftOver(r, br)) else [];
    ZrlTokensSnoc(r, br);
    TokensAppend(ZrlTokens(r, br), more, dc, ac);
    NoToken(dc, ac);
    AcSymbolBits(0xF0, dc, ac);
    BitTokensBits(LeftOver(r, br), dc, ac);
    TokensAppend([AcSymbol(0xF0)], BitTokens(LeftOver(r, br)), dc, ac);
  }

  lemma ZrlTokensSnoc(r: nat, br: seq<bit>)
    ensures ZrlTokens(r + 1, br)
         == ZrlTokens(r, br) + if r % 16 == 15 then [AcSymbol(0xF0)] + BitTokens(LeftOver(r, br)) else []
    ensures r % 16 != 15 ==> LeftOver(r + 1, br) == LeftOver(r, br)
  {
    hide Zrls, BitTokens;
    var f0, bits := [AcSymbol(0xF0)], BitTokens(br);
    if r > 15 {
      ZrlsNext(r + 1 - 16);
      NoBits();
      var more := if r % 16 == 15 then f0 else [];
      Regroup(bits, Zrls(r - 16), more);
      Regroup(f0, bits + Zrls(r - 16), more);
      assert f0 + [] == f0;
    } else if r == 15 {
      ZrlsNone(0);
      assert bits + [] == bits;
    }
  }

  lemma NoBits()
    ensures BitTokens([]) == []
  {
  }

  lemma ZrlsNone(r: nat)
    requires r <= 15
    ensures Zrls(r) == []
  {
  }

  /** The tokens of the coefficients from `j` on, after `r` zeros, are spelled out. */
  ghost predicate FrontIsSpelled(refine: bool, c: seq<int>, j: nat, r: nat, br: seq<bit>, dc: CTable, ac: CTable)
    requires |dc.ehufco| == |dc.ehufsi| == |ac.ehufco| == |ac.ehufsi| == 256
    requires j <= |c| && (refine || Short(c))
  {
    TokensBits(FrontTokens(refine, c[j..], r, br), dc, ac)
    == TokensBits(ZrlTokens(r, br), dc, ac) + BandSpelled(refine, c, j, r % 16, LeftOver(r, br), ac)
  }

  lemma ZeroSpelled(refine: bool, c: seq<int>, j: nat, r: nat, br: seq<bit>, dc: CTable, ac: CTable)
    requires |dc.ehufco| == |dc.ehufsi| == |ac.ehufco| == |ac.ehufsi| == 256
    requires j < |c| && (refine || Short(c)) && c[j] == 0 && FrontIsSpelled(refine, c, j + 1, r + 1, br, dc, ac)
    ensures FrontIsSpelled(refine, c, j, r, br, dc, ac)
  {
    hide TokensBits, Symbol, ZrlTokens, LeftOver;
    var rest := c[j..];
    assert rest[0] == c[j] && rest[1..] == c[j + 1..];
    ZrlTokensNext(r, br, dc, ac);
    AfterZeros(r, br);
    assert FrontTokens(refine, rest, r, br) == FrontTokens(refine, c[j + 1..], r + 1, br);
    if r % 16 == 15 {
      Regroup(TokensBits(ZrlTokens(r, br), dc, ac), Symbol(ac, 0xF0) + LeftOver(r, br),
              BandSpelled(refine, c, j + 1, 0, [], ac));
    } else {
      assert TokensBits(ZrlTokens(r, br), dc, ac) + [] == TokensBits(ZrlTokens(r, br), dc, ac);
    }
  }

  lemma OldSpelled(refine: bool, c: seq<int>, j: nat, r: nat, br: seq<bit>, dc: CTable, ac: CTable)
    requires |dc.ehufco| == |dc.ehufsi| == |ac.ehufco| == |ac.ehufsi| == 256
    requires j < |c| && (refine || Short(c)) && Old(refine, c[j])
    requires FrontIsSpelled(refine, c, j + 1, r % 16, LeftOver(r, br) + [Abs(c[j]) % 2], dc, ac)
    ensures FrontIsSpelled(refine, c, j, r, br, dc, ac)
  {
    hide TokensBits, Symbol, ZrlTokens, LeftOver;
    var rest, bits := c[j..], LeftOver(r, br) + [Abs(c[j]) % 2];
    assert rest[0] == c[j] && rest[1..] == c[j + 1..];
    TokensAppend(ZrlTokens(r, br), FrontTokens(refine, c[j + 1..], r % 16, bits), dc, ac);
    ShortRun(r % 16, bits);
    NoToken(dc, ac);
    assert [] + BandSpelled(refine, c, j + 1, r % 16, bits, ac) == BandSpelled(refine, c, j + 1, r % 16, bits, ac);
  }

  lemma FreshSpelled(refine: bool, c: seq<int>, j: nat, r: nat, br: seq<bit>, dc: CTable, ac: CTable)
    requires |dc.ehufco| == |dc.ehufsi| == |ac.ehufco| == |ac.ehufsi| == 256
    requires j < |c| && (refine || Short(c)) && Fresh(refine, c[j])
    requires FrontIsSpelled(refine, c, j + 1, 0, [], dc, ac)
    ensures FrontIsSpelled(refine, c, j, r, br, dc, ac)
  {
    hide TokensBits, Symbol, BitTokens, Magnitude, Category, ZrlTokens, LeftOver, Coef;
    var left, rest := LeftOver(r, br), c[j..];
    var own, more := Coef(r % 16, c[j]) + BitTokens(left), FrontTokens(refine, c[j + 1..], 0, []);
    assert rest[0] == c[j] && rest[1..] == c[j + 1..];
    FrontStep(refine, rest, r, br);
    ShortCategory(c[j]);
    NoRun([]);
    NoToken(dc, ac);
    assert [] + BandSpelled(refine, c, j + 1, 0, [], ac) == BandSpelled(refine, c, j + 1, 0, [], ac);
    OwnSpelled(r % 16, c[j], left, dc, ac);
    ThreeParts(ZrlTokens(r, br), own, more, dc, ac);
    Regroup(TokensBits(ZrlTokens(r, br), dc, ac), TokensBits(own, dc, ac), TokensBits(more, dc, ac));
  }

  /** A coefficient's symbol, bits and correction bits. */
  lemma OwnSpelled(z: nat, x: int, br: seq<bit>, dc: CTable, ac: CTable)
    requires |dc.ehufco| == |dc.ehufsi| == |ac.ehufco| == |ac.ehufsi| == 256
    requires z < 16 && x != 0 && Category(x) <= 15
    ensures TokensBits(Coef(z, x) + BitTokens(br), dc, ac)
         == Symbol(ac, 16 * z + Category(x)) + Magnitude(x, Category(x)) + br
  {
    hide TokensBits, TokenBits, BitTokens, Magnitude, Category, Complemented, Takes;
    CategoryTakes(x);
    ValueSpelled(AcSymbol(16 * z + Category(x)), x, Category(x), dc, ac);
    OneAcSymbol(16 * z + Category(x), dc, ac);
    BitTokensBits(br, dc, ac);
    TokensAppend(Coef(z, x), BitTokens(br), dc, ac);
  }

  lemma {:induction false} FrontSpelled(refine: bool, c: seq<int>, j: nat, r: nat, br: seq<bit>, dc: CTable, ac: CTable)
    requires |dc.ehufco| == |dc.ehufsi| == |ac.ehufco| == |ac.ehufsi| == 256
    requires j <= |c| && (refine || Short(c)) && if j == |c| then r == 0 && br == [] else Fresh(refine, c[|c| - 1])
    ensures FrontIsSpelled(refine, c, j, r, br, dc, ac)
    decreases |c| - j
  {
    hide FrontIsSpelled, LeftOver, Short;
    if j == |c| {
      NothingSpelled(refine, c, dc, ac);
    } else if c[j] == 0 {
      FrontSpelled(refine, c, j + 1, r + 1, br, dc, ac);
      ZeroSpelled(refine, c, j, r, br, dc, ac);
    } else if Old(refine, c[j]) {
      FrontSpelled(refine, c, j + 1, r % 16, LeftOver(r, br) + [Abs(c[j]) % 2], dc, ac);
      OldSpelled(refine, c, j, r, br, dc, ac);
    } else {
      FrontSpelled(refine, c, j + 1, 0, [], dc, ac);
      FreshSpelled(refine, c, j, r, br, dc, ac);
    }
  }

  lemma NothingSpelled(refine: bool, c: seq<int>, dc: CTable, ac: CTable)
    requires |dc.ehufco| == |dc.ehufsi| == |ac.ehufco| == |ac.ehufsi| == 256 && (refine || Short(c))
    ensures FrontIsSpelled(refine, c, |c|, 0, [], dc, ac)
  {
    NoRun([]);
    NoToken(dc, ac);
    assert c[|c|..] == [];
  }

  lemma OneAcSymbol(y: nat, dc: CTable, ac: CTable)
    requires |dc.ehufco| == |dc.ehufsi| == |ac.ehufco| == |ac.ehufsi| == 256 && y < 256
    ensures TokenBits(AcSymbol(y), dc, ac) == Symbol(ac, y)
  {
  }

  lemma NoRun(br: seq<bit>)
    ensures ZrlTokens(0, br) == [] && LeftOver(0, br) == br
  {
  }

  lemma ShortRun(r: nat, br: seq<bit>)
    requires r < 16
    ensures ZrlTokens(r, br) == [] && LeftOver(r, br) == br
  {
  }

  lemma AfterZeros(r: nat, br: seq<bit>)
    ensures r % 16 == 15 ==> (r + 1) % 16 == 0 && LeftOver(r + 1, br) == []
    ensures r % 16 != 15 ==> (r + 1) % 16 == r % 16 + 1
  {
  }

  /** The correction bits of coefficients that were nonzero before. */
  function CorrectionBits(refine: bool, c: seq<int>): seq<bit>
  {
    if c == [] then []
    else (if refine && Abs(c[0]) > 1 then [Abs(c[0]) % 2] else []) + CorrectionBits(refine, c[1..])
  }

  lemma {:induction false} CorrectionBitsAre(refine: bool, c: seq<int>)
    ensures Corrections(refine, c) == CorrectionBits(refine, c)
  {
    if c != [] {
      CorrectionBitsAre(refine, c[1..]);
    }
  }

  /** `n` coefficients reach up to the last one with a symbol of its own. */
  predicate Reaches(refine: bool, c: seq<int>, n: nat)
  {
    && n <= |c| && (n > 0 ==> c[n - 1] != 0 && !(refine && Abs(c[n - 1]) > 1))
    && forall j :: n <= j < |c| ==> c[j] == 0 || (refine && Abs(c[j]) > 1)
  }

  /** A band of which `n` coefficients reach up to the last one with a symbol, when the ends of `run`
      bands with correction bits `bits` are to be sent: they are sent before the first symbol, and
      otherwise are joined by the end of this band, up to 32767 of them or 938 correction bits. */
  function WholeBand(refine: bool, c: seq<int>, n: nat, run: nat, bits: seq<bit>, ac: CTable)
    : (r: (seq<bit>, nat, seq<bit>))
    requires (refine || Short(c)) && n <= |c| && |ac.ehufco| == |ac.ehufsi| == 256 && run < 0x7FFF
    ensures r.1 < 0x7FFF
  {
    var run1 := (if n == 0 then run else 0) + if n < |c| then 1 else 0;
    var bits1 := (if n == 0 then bits else []) + CorrectionBits(refine, c[n..]);
    var sent := if n == 0 then [] else RunBits(run, bits, ac) + BandSpelled(refine, c[..n], 0, 0, [], ac);
    if run1 == 0x7FFF || |bits1| > 937 then (sent + RunBits(run1, bits1, ac), 0, []) else (sent, run1, bits1)
  }

  /** Every band of a progressive scan is sent as spelled out. */
  lemma BandBitsAre(refine: bool, c: seq<int>, n: nat, run: nat, bits: seq<bit>, dc: CTable, ac: CTable)
    requires |dc.ehufco| == |dc.ehufsi| == |ac.ehufco| == |ac.ehufsi| == 256
    requires (refine || Short(c)) && run < 0x7FFF && Reaches(refine, c, n)
    ensures var after := BandPending(refine, Pending(run, bits), c);
      (TokensBits(BandTokens(refine, Pending(run, bits), c), dc, ac), after.run, after.bits)
      == WholeBand(refine, c, n, run, bits, ac)
  {
    hide TokensBits, FrontTokens, BandSpelled, Eob, RunBits, Corrections, CorrectionBits, Word;
    var p := Pending(run, bits);
    var tail := BandTail(refine, p, c);
    FrontIs(refine, c, n);
    TailIs(refine, p, c, n);
    EobSpelled(tail.run, tail.bits, dc, ac);
    BandFrontSpelled(refine, p, c, n, dc, ac);
    NoToken(dc, ac);
    var front, end := BandFront(refine, p, c), if Full(tail) then Eob(tail.run, tail.bits) else [];
    TokensAppend(front, end, dc, ac);
    assert TokensBits(front, dc, ac) + [] == TokensBits(front, dc, ac);
    assert TokensBits(BandTokens(refine, p, c), dc, ac)
        == TokensBits(front, dc, ac) + if Full(tail) then RunBits(tail.run, tail.bits, ac) else [];
    assert Full(tail) <==> tail.run == 0x7FFF || |tail.bits| > 937;
  }

  lemma BandFrontSpelled(refine: bool, p: Pending, c: seq<int>, n: nat, dc: CTable, ac: CTable)
    requires |dc.ehufco| == |dc.ehufsi| == |ac.ehufco| == |ac.ehufsi| == 256
    requires (refine || Short(c)) && p.run < 0x7FFF && Reaches(refine, c, n)
    ensures TokensBits(BandFront(refine, p, c), dc, ac)
         == if n == 0 then [] else RunBits(p.run, p.bits, ac) + BandSpelled(refine, c[..n], 0, 0, [], ac)
  {
    hide TokensBits, FrontTokens, BandSpelled, Eob, RunBits, Word;
    FrontIs(refine, c, n);
    NoToken(dc, ac);
    if n > 0 {
      var bits := BandSpelled(refine, c[..n], 0, 0, [], ac);
      EobSpelled(p.run, p.bits, dc, ac);
      FrontSpelled(refine, c[..n], 0, 0, [], dc, ac);
      assert c[..n][0..] == c[..n];
      NoRun([]);
      assert [] + bits == bits;
      TokensAppend(Eob(p.run, p.bits), FrontTokens(refine, c[..n], 0, []), dc, ac);
    }
  }

  lemma FrontIs(refine: bool, c: seq<int>, n: nat)
    requires Reaches(refine, c, n)
    ensures FrontLen(refine, c) == n
  {
    var m := FrontLen(refine, c);
    assert n > 0 ==> Fresh(refine, c[n - 1]);
    assert forall j :: n <= j < |c| ==> !Fresh(refine, c[j]);
  }

  lemma TailIs(refine: bool, p: Pending, c: seq<int>, n: nat)
    requires n <= |c| && FrontLen(refine, c) == n
    ensures BandTail(refine, p, c)
         == Pending((if n == 0 then p.run else 0) + (if n < |c| then 1 else 0),
                    (if n == 0 then p.bits else []) + CorrectionBits(refine, c[n..]))
  {
    hide Corrections;
    var left := if n == 0 then p else NONE;
    CorrectionBitsAre(refine, c[n..]);
    if c[n..] == [] {
      assert left.bits + [] == left.bits;
    }
  }

  // ------------------------------------------------------------ blocks of a scan

  function TransformedBand(x: Zigzag, ss: nat, se: nat, al: nat): (c: seq<int>)
    requires ss <= se < 64
    ensures |c| == se + 1 - ss && forall i :: 0 <= i < |c| ==> c[i] == Transformed(x[ss + i], al)
  {
    seq(se + 1 - ss, i requires 0 <= i < se + 1 - ss => Transformed(x[ss + i], al))
  }

  /** The values that are sent take at most fifteen bits. */
  predicate Sendable(s: Scan, e: State, job: Job)
    requires ValidScan(s) && ValidState(s, e) && job.ci < s.comps
  {
    var x, last := job.block, e.last[job.ci];
    match s.mode
    case Sequential => Abs(x[0] - last) <= 0x7FFF && Short(x[1..s.se + 1])
    case DcFirst => Abs(x[0] / Pow2(s.al) - last) <= 0x7FFF
    case AcFirst => Short(TransformedBand(x, s.ss, s.se, s.al))
    case DcRefine => true
    case AcRefine => true
  }

  /** What is sent for a block, and the state afterwards: in a DC scan the coefficient shifted down,
      as the difference from the last one, or its bit `al`; in an AC scan the band shifted towards
      zero, of which `n` coefficients reach up to the last one with a symbol. */
  function JobSpelled(s: Scan, e: State, job: Job, n: nat, dc: CTable, ac: CTable): (seq<bit>, State)
    requires ValidScan(s) && ValidState(s, e) && job.ci < s.comps && Sendable(s, e, job)
    requires |dc.ehufco| == |dc.ehufsi| == |ac.ehufco| == |ac.ehufsi| == 256
    requires IsAc(s.mode) ==> Reaches(s.mode == AcRefine, TransformedBand(job.block, s.ss, s.se, s.al), n)
  {
    var x, last, run, bits := job.block, e.last[job.ci], e.pending.run, e.pending.bits;
    match s.mode
    case Sequential =>
      (BlockSpelled(x[0] - last, x[1..s.se + 1], dc, ac), e.(last := e.last[job.ci := x[0]]))
    case DcFirst =>
      var v := x[0] / Pow2(s.al);
      ShortCategory(v - last);
      (Symbol(dc, Category(v - last)) + Magnitude(v - last, Category(v - last)), e.(last := e.last[job.ci := v]))
    case DcRefine => ([x[0] / Pow2(s.al) % 2], e)
    case AcFirst =>
      var r := WholeBand(false, TransformedBand(x, s.ss, s.se, s.al), n, run, bits, ac);
      (r.0, e.(pending := Pending(r.1, r.2)))
    case AcRefine =>
      var r := WholeBand(true, TransformedBand(x, s.ss, s.se, s.al), n, run, bits, ac);
      (r.0, e.(pending := Pending(r.1, r.2)))
  }

  lemma BandIs(s: Scan, x: Zigzag)
    requires ValidScan(s) && IsAc(s.mode)
    ensures BandOf(s, x) == TransformedBand(x, s.ss, s.se, s.al)
  {
    hide Point, Transformed;
    forall i | 0 <= i < s.se + 1 - s.ss
      ensures BandOf(s, x)[i] == Transformed(x[s.ss + i], s.al)
    {
      PointTransformed(x[s.ss + i], s.al);
    }
  }

  lemma LowestBit(v: int, dc: CTable, ac: CTable)
    requires |dc.ehufco| == |dc.ehufsi| == |ac.ehufco| == |ac.ehufsi| == 256
    ensures TokensBits([Extra(v, 1)], dc, ac) == [v % 2]
  {
    OneToken(Extra(v, 1), dc, ac);
    assert Word(v % 2, 1) == Word(v % 2 / 2, 0) + [v % 2];
  }

  /** Blocks of all kinds of scans are sent as spelled out, and leave the state that is spelled out. */
  lemma JobBitsAre(s: Scan, e: State, job: Job, n: nat, dc: CTable, ac: CTable)
    requires ValidScan(s) && ValidState(s, e) && job.ci < s.comps && Sendable(s, e, job)
    requires |dc.ehufco| == |dc.ehufsi| == |ac.ehufco| == |ac.ehufsi| == 256
    requires IsAc(s.mode) ==> Reaches(s.mode == AcRefine, TransformedBand(job.block, s.ss, s.se, s.al), n)
    ensures (TokensBits(JobTokens(s, e, job), dc, ac), AfterJob(s, e, job)) == JobSpelled(s, e, job, n, dc, ac)
  {
    hide TokensBits, BlockTokens, BlockSpelled, DcTokens, BandTokens, WholeBand, Magnitude, Category, ShiftDown,
      Transformed, Pow2, BandPending, Symbol, Reaches, Short;
    var x := job.block;
    ShiftDownQuotient(x[0], s.al);
    match s.mode
    case Sequential => BlockBitsAre(x[0] - e.last[job.ci], x[1..s.se + 1], dc, ac);
    case DcFirst => DcTokensSpelled(x[0] / Pow2(s.al) - e.last[job.ci], dc, ac);
    case DcRefine => LowestBit(x[0] / Pow2(s.al), dc, ac);
    case AcFirst =>
      BandIs(s, x);
      BandBitsAre(false, BandOf(s, x), n, e.pending.run, e.pending.bits, dc, ac);
    case AcRefine =>
      BandIs(s, x);
      BandBitsAre(true, BandOf(s, x), n, e.pending.run, e.pending.bits, dc, ac);
  }

  /** DC differences up to 2047 and AC coefficients up to 1023 in magnitude. */
  predicate JobSmall(s: Scan, e: State, job: Job)
    requires ValidScan(s) && ValidState(s, e) && job.ci < s.comps
  {
    var x, last := job.block, e.last[job.ci];
    match s.mode
    case Sequential => Abs(x[0] - last) <= 2047 && forall k :: 1 <= k <= s.se ==> Abs(x[k]) <= 1023
    case DcFirst => Abs(x[0] / Pow2(s.al) - last) <= 2047
    case AcFirst => forall k :: s.ss <= k <= s.se ==> Abs(Transformed(x[k], s.al)) <= 1023
    case DcRefine => true
    case AcRefine => true
  }

  lemma SequentialInRange(s: Scan, e: State, job: Job)
    requires ValidScan(s) && ValidState(s, e) && job.ci < s.comps && s.mode == Sequential
    ensures JobInRange(s, e, job) <==> JobSmall(s, e, job)
  {
    hide Category, Abs;
    var x := job.block;
    var c := x[1..s.se + 1];
    InRangeIs(x[0] - e.last[job.ci], c);
    assert forall k :: 1 <= k <= s.se ==> x[k] == c[k - 1];
  }

  lemma DcInRange(s: Scan, e: State, job: Job)
    requires ValidScan(s) && ValidState(s, e) && job.ci < s.comps && s.mode == DcFirst
    ensures JobInRange(s, e, job) <==> JobSmall(s, e, job)
  {
    hide Category, Abs, ShiftDown, Pow2;
    ShiftDownQuotient(job.block[0], s.al);
    InRangeIs(job.block[0] / Pow2(s.al) - e.last[job.ci], []);
  }

  lemma BandInRange(s: Scan, e: State, job: Job)
    requires ValidScan(s) && ValidState(s, e) && job.ci < s.comps && s.mode == AcFirst
    ensures JobInRange(s, e, job) <==> JobSmall(s, e, job)
  {
    hide Category, Abs, Transformed, SmallCoefs;
    var x, c := job.block, BandOf(s, job.block);
    BandIs(s, x);
    BandSmall(c);
    assert forall k :: s.ss <= k <= s.se ==> Transformed(x[k], s.al) == c[k - s.ss];
  }

  /** The encoder refuses DC differences above 2047 and AC coefficients above 1023 in magnitude, and
      nothing else. */
  lemma JobInRangeIs(s: Scan, e: State, job: Job)
    requires ValidScan(s) && ValidState(s, e) && job.ci < s.comps
    ensures JobInRange(s, e, job) <==> JobSmall(s, e, job)
  {
    match s.mode
    case Sequential => SequentialInRange(s, e, job);
    case DcFirst => DcInRange(s, e, job);
    case AcFirst => BandInRange(s, e, job);
    case DcRefine =>
    case AcRefine =>
  }

  lemma InRangeSendable(s: Scan, e: State, job: Job)
    requires ValidScan(s) && ValidState(s, e) && job.ci < s.comps && JobInRange(s, e, job)
    ensures Sendable(s, e, job)
  {
    hide Category, ShiftDown, Transformed, Pow2, Short;
    var x := job.block;
    ShiftDownQuotient(x[0], s.al);
    if s.mode == Sequential {
      InRangeIs(x[0] - e.last[job.ci], x[1..s.se + 1]);
      BandSmall(x[1..s.se + 1]);
    } else if s.mode == DcFirst {
      InRangeIs(x[0] / Pow2(s.al) - e.last[job.ci], []);
    } else if s.mode == AcFirst {
      BandIs(s, x);
      BandSmall(BandOf(s, x));
    }
  }

  lemma BandSmall(c: seq<int>)
    ensures SmallCoefs(c) <==> forall i :: 0 <= i < |c| ==> Abs(c[i]) <= 1023
    ensures SmallCoefs(c) ==> Short(c)
  {
    InRangeIs(0, c);
    CategoryZero(0);
  }

  // --------------------------------------------------------------- whole segments

  /** How far the bands of the blocks reach that have symbols. */
  ghost predicate ReachesAll(s: Scan, jobs: seq<Job>, ns: seq<nat>)
    requires ValidScan(s)
  {
    && |ns| == |jobs|
    && (IsAc(s.mode) ==>
          forall i :: 0 <= i < |jobs| ==>
            Reaches(s.mode == AcRefine, TransformedBand(jobs[i].block, s.ss, s.se, s.al), ns[i]))
  }

  ghost predicate HaveTables(s: Scan, ts: seq<CompTables>)
  {
    |ts| == s.comps && forall i :: 0 <= i < |ts| ==> Shaped(ts[i])
  }

  /** The bits of a segment: the blocks in turn, and the run that is left in the end, in a scan of one
      component. */
  ghost function SegmentSpelled(s: Scan, ts: seq<CompTables>, e: State, jobs: seq<Job>, ns: seq<nat>): seq<bit>
    requires ValidScan(s) && ValidState(s, e) && HaveTables(s, ts) && ReachesAll(s, jobs, ns)
    requires (forall i :: 0 <= i < |jobs| ==> jobs[i].ci < s.comps) && AllInRange(s, e, jobs)
    decreases |jobs|
  {
    if jobs == [] then RunBits(e.pending.run, e.pending.bits, ts[0].ac)
    else
      var c := ts[jobs[0].ci];
      InRangeSendable(s, e, jobs[0]);
      NextState(s, e, jobs[0], ns[0], c.dc, c.ac);
      var (bits, next) := JobSpelled(s, e, jobs[0], ns[0], c.dc, c.ac);
      bits + SegmentSpelled(s, ts, next, jobs[1..], ns[1..])
  }

  lemma NextState(s: Scan, e: State, job: Job, n: nat, dc: CTable, ac: CTable)
    requires ValidScan(s) && ValidState(s, e) && job.ci < s.comps && Sendable(s, e, job)
    requires |dc.ehufco| == |dc.ehufsi| == |ac.ehufco| == |ac.ehufsi| == 256
    requires IsAc(s.mode) ==> Reaches(s.mode == AcRefine, TransformedBand(job.block, s.ss, s.se, s.al), n)
    ensures JobSpelled(s, e, job, n, dc, ac).1 == AfterJob(s, e, job)
  {
    hide JobSpelled, JobTokens, AfterJob, TokensBits, Sendable, Reaches, Transformed;
    JobBitsAre(s, e, job, n, dc, ac);
  }

  lemma {:induction false} JobsAre(s: Scan, ts: seq<CompTables>, e: State, jobs: seq<Job>, ns: seq<nat>)
    requires ValidScan(s) && ValidState(s, e) && HaveTables(s, ts) && ReachesAll(s, jobs, ns)
    requires (forall i :: 0 <= i < |jobs| ==> jobs[i].ci < s.comps) && AllInRange(s, e, jobs)
    ensures TaggedBits(ts, SegmentTagged(s, e, jobs)) == SegmentSpelled(s, ts, e, jobs, ns)
    decreases |jobs|
  {
    hide JobSpelled, JobTokens, AfterJob, TokensBits, Sendable, Reaches, Transformed, JobInRange, Eob, RunBits,
      TaggedBits, HaveAll, HaveCodes;
    if jobs == [] {
      assert [] + Flush(e) == Flush(e);
      TagBits(ts, 0, Eob(e.pending.run, e.pending.bits));
      EobSpelled(e.pending.run, e.pending.bits, ts[0].dc, ts[0].ac);
    } else {
      var c, ks, next := ts[jobs[0].ci], JobTokens(s, e, jobs[0]), AfterJob(s, e, jobs[0]);
      InRangeSendable(s, e, jobs[0]);
      JobBitsAre(s, e, jobs[0], ns[0], c.dc, c.ac);
      TagBits(ts, jobs[0].ci, ks);
      Regroup(Tag(jobs[0].ci, ks), JobsTagged(s, next, jobs[1..]), Flush(AfterJobs(s, next, jobs[1..])));
      TaggedAppend(ts, Tag(jobs[0].ci, ks), SegmentTagged(s, next, jobs[1..]));
      JobsAre(s, ts, next, jobs[1..], ns[1..]);
    }
  }

  /** Every segment starts from the DC values 0 and without a run. */
  lemma SegmentBitsAre(s: Scan, ts: seq<CompTables>, jobs: seq<Job>, ns: seq<nat>)
    requires ValidScan(s) && ValidJobs(s, jobs) && HaveTables(s, ts) && ReachesAll(s, jobs, ns)
    requires Accepted(s, ts, jobs)
    ensures ValidState(s, State(seq(s.comps, i => 0), Pending(0, [])))
    ensures AllInRange(s, State(seq(s.comps, i => 0), Pending(0, [])), jobs)
    ensures SegmentBits(s, ts, jobs)
         == SegmentSpelled(s, ts, State(seq(s.comps, i => 0), Pending(0, [])), jobs, ns)
  {
    hide AllInRange, HaveAll, SegmentSpelled, SegmentTagged, TaggedBits, Reaches, Transformed, Shaped;
    JobsAre(s, ts, Start(s), jobs, ns);
  }
}
