/** Sequential Huffman coding of one block (T.81 sections F.1.2 and F.2.2): the
    symbols and extra bits of a block, and how a decoder reads them back. */
module HuffmanBlock {
  import opened Powers
  import opened BitStreams
  import opened Coefficients
  import opened HuffmanCode
  import opened HuffmanTables

  const MAX_COEF_BITS: nat := 10

  // -------------------------------------------------------------- magnitudes

  /** Number of bits of the magnitude. */
  function Category(x: int): nat
  {
    if x == 0 then 0 else Levels(Abs(x)) + 1
  }

  /** The value itself, or for a negative one its magnitude complemented, as a
      two's-complement number whose low bits are sent. */
  function Complemented(x: int): int
  {
    if x < 0 then x - 1 else x
  }

  /** HUFF_EXTEND (Figure F.12). */
  function Extend(r: nat, s: nat): int
    requires 0 < s
  {
    if r < Pow2(s - 1) then r - (Pow2(s) - 1) else r
  }

  lemma ModIs(x: int, p: int, q: int, r: int)
    requires x == q * p + r && 0 <= r < p
    ensures x % p == r
  {
    var a := x / p;
    if a < q {
      MulLe(a + 1, q, p);
    } else if q < a {
      MulLe(q + 1, a, p);
    }
  }

  /** The extra bits give the value back. */
  lemma ExtendComplemented(x: int)
    requires x != 0
    ensures Extend(Complemented(x) % Pow2(Category(x)), Category(x)) == x
  {
    LevelsBound(Abs(x));
    var p: int, half: int := Pow2(Category(x)), Pow2(Levels(Abs(x)));
    assert p == 2 * half;
    hide Pow2, Levels;
    if x > 0 {
      ModIs(x, p, 0, x);
    } else {
      ModIs(x - 1, p, -1, x - 1 + p);
    }
  }

  // ------------------------------------------------------------------ tokens

  datatype Token = DcSymbol(sym: nat) | AcSymbol(sym: nat) | Extra(v: int, size: nat)

  function DcTokens(diff: int): seq<Token>
  {
    [DcSymbol(Category(diff))]
    + if diff == 0 then [] else [Extra(Complemented(diff), Category(diff))]
  }

  /** Runs of sixteen zeros. */
  function Zrls(r: nat): seq<Token>
  {
    if r > 15 then [AcSymbol(0xF0)] + Zrls(r - 16) else []
  }

  function Coef(r: nat, x: int): seq<Token>
  {
    [AcSymbol(16 * r + Category(x))] + [Extra(Complemented(x), Category(x))]
  }

  /** The coefficients `c` after `r` zeros. */
  function AcTokens(c: seq<int>, r: nat): seq<Token>
  {
    if c == [] then if r > 0 then [AcSymbol(0)] else []
    else if c[0] == 0 then AcTokens(c[1..], r + 1)
    else Zrls(r) + (Coef(r % 16, c[0]) + AcTokens(c[1..], 0))
  }

  function BlockTokens(diff: int, c: seq<int>): seq<Token>
  {
    DcTokens(diff) + AcTokens(c, 0)
  }

  /** Magnitudes that the encoder does not refuse. */
  predicate InRange(diff: int, c: seq<int>)
  {
    Category(diff) <= MAX_COEF_BITS + 1 && forall i :: 0 <= i < |c| ==> Category(c[i]) <= MAX_COEF_BITS
  }

  /** The bits sent for a token. */
  function TokenBits(k: Token, dc: CTable, ac: CTable): seq<bit>
    requires |dc.ehufco| == |dc.ehufsi| == |ac.ehufco| == |ac.ehufsi| == 256
  {
    match k
    case DcSymbol(y) => if y < 256 then Word(dc.ehufco[y], dc.ehufsi[y]) else []
    case AcSymbol(y) => if y < 256 then Word(ac.ehufco[y], ac.ehufsi[y]) else []
    case Extra(v, n) => Word(v % Pow2(n), n)
  }

  function TokensBits(ks: seq<Token>, dc: CTable, ac: CTable): seq<bit>
    requires |dc.ehufco| == |dc.ehufsi| == |ac.ehufco| == |ac.ehufsi| == 256
  {
    if ks == [] then [] else TokenBits(ks[0], dc, ac) + TokensBits(ks[1..], dc, ac)
  }

  predicate HasCode(k: Token, dc: CTable, ac: CTable)
    requires |dc.ehufsi| == |ac.ehufsi| == 256
  {
    match k
    case DcSymbol(y) => y < 256 && dc.ehufsi[y] != 0
    case AcSymbol(y) => y < 256 && ac.ehufsi[y] != 0
    case Extra(_, n) => true
  }

  ghost predicate HaveCodes(ks: seq<Token>, dc: CTable, ac: CTable)
    requires |dc.ehufsi| == |ac.ehufsi| == 256
  {
    forall i :: 0 <= i < |ks| ==> HasCode(ks[i], dc, ac)
  }

  lemma CodesAppend(a: seq<Token>, b: seq<Token>, dc: CTable, ac: CTable)
    requires |dc.ehufsi| == |ac.ehufsi| == 256
    ensures HaveCodes(a + b, dc, ac) <==> HaveCodes(a, dc, ac) && HaveCodes(b, dc, ac)
  {
    hide HasCode;
    assert forall i :: 0 <= i < |a| ==> (a + b)[i] == a[i];
    assert forall i :: 0 <= i < |b| ==> (a + b)[|a| + i] == b[i];
  }

  lemma {:induction false} BitsAppend(a: seq<Token>, b: seq<Token>, dc: CTable, ac: CTable)
    requires |dc.ehufco| == |dc.ehufsi| == |ac.ehufco| == |ac.ehufsi| == 256
    ensures TokensBits(a + b, dc, ac) == TokensBits(a, dc, ac) + TokensBits(b, dc, ac)
    decreases |a|
  {
    hide TokenBits;
    if a == [] {
      assert a + b == b;
    } else {
      assert (a + b)[0] == a[0] && (a + b)[1..] == a[1..] + b;
      BitsAppend(a[1..], b, dc, ac);
    }
  }

  lemma TokensAppend(a: seq<Token>, b: seq<Token>, dc: CTable, ac: CTable)
    requires |dc.ehufco| == |dc.ehufsi| == |ac.ehufco| == |ac.ehufsi| == 256
    ensures TokensBits(a + b, dc, ac) == TokensBits(a, dc, ac) + TokensBits(b, dc, ac)
    ensures HaveCodes(a + b, dc, ac) <==> HaveCodes(a, dc, ac) && HaveCodes(b, dc, ac)
  {
    hide *;
    BitsAppend(a, b, dc, ac);
    CodesAppend(a, b, dc, ac);
  }

  lemma OneToken(k: Token, dc: CTable, ac: CTable)
    requires |dc.ehufco| == |dc.ehufsi| == |ac.ehufco| == |ac.ehufsi| == 256
    ensures TokensBits([k], dc, ac) == TokenBits(k, dc, ac)
    ensures HaveCodes([k], dc, ac) <==> HasCode(k, dc, ac)
  {
    hide TokenBits, HasCode;
    assert [k][1..] == [];
  }

  // ----------------------------------------------------------------- parsing

  /** The DC difference at `pos` and the position after it. */
  function ParseDcDiff(t: Table, s: seq<bit>, pos: nat): (r: (int, nat))
    requires WellFormed(t) && Upto(t.bits, 16) <= 256
  {
    var (y, p) := Decode(t, s, pos);
    if y == 0 then (0, p) else (Extend(Window(s, p, y), y), p + y)
  }

  /** Positions past the band are stored in the last place. */
  function Place(k: nat, se: nat): (p: nat)
    requires se < 64
    ensures p < 64
  {
    if k <= se then k else 63
  }

  /** The table can be used for coefficients `k` to `se`, if there are any. */
  predicate Suits(t: Table, k: nat, se: nat)
  {
    WellFormed(t) && (k <= se ==> Upto(t.bits, 16) <= 256)
  }

  /** The AC coefficients from position `k` on, stored into `b`. */
  function ParseAc(t: Table, s: seq<bit>, pos: nat, k: nat, se: nat, b: Zigzag): (r: (Zigzag, nat))
    requires Suits(t, k, se) && se < 64
    decreases se + 1 - k
  {
    if k > se then (b, pos)
    else
      var (y, p) := Decode(t, s, pos);
      var r, n := y / 16, y % 16;
      if n != 0 then
        ParseAc(t, s, p + n, k + r + 1, se, b[Place(k + r, se) := ToCoef(Extend(Window(s, p, n), n))])
      else if r == 15 then ParseAc(t, s, p, k + 16, se, b)
      else (b, p)
  }

  /** The tables of both sides belong together. */
  ghost predicate Matching(t: Table, c: CTable)
  {
    WellFormed(t) && Legal(t, 255) && EncodesTable(t, c)
  }

  lemma MatchingSizes(t: Table, c: CTable)
    requires Matching(t, c)
    ensures WellFormed(t) && Upto(t.bits, 16) <= 256 && |c.ehufco| == |c.ehufsi| == 256
  {
  }

  /** A symbol's bits decode to the symbol. */
  lemma SymbolDecoded(t: Table, c: CTable, y: nat, s: seq<bit>, pos: nat)
    requires Matching(t, c) && y < 256 && c.ehufsi[y] != 0
    requires Holds(s, pos, Word(c.ehufco[y], c.ehufsi[y]))
    ensures Decode(t, s, pos) == (y, pos + c.ehufsi[y])
  {
    hide Word, Holds, Decode, Next, Upto, LenOf, CodeOf;
    var n := Upto(t.bits, 16);
    assert y in t.vals[..n];
    var p :| 0 <= p < n && t.vals[p] == y;
    DecodeWord(t, s, pos, p);
  }

  /** Extra bits read back. */
  lemma ExtraDecoded(x: int, s: seq<bit>, pos: nat)
    requires x != 0 && Holds(s, pos, Word(Complemented(x) % Pow2(Category(x)), Category(x)))
    ensures Extend(Window(s, pos, Category(x)), Category(x)) == x
  {
    var n := Category(x);
    var w := Word(Complemented(x) % Pow2(n), n);
    WordVal(Complemented(x) % Pow2(n), n);
    HoldsWindow(s, pos, w, n);
    assert w[..n] == w;
    ExtendComplemented(x);
  }

  lemma DcParsed(t: Table, c: CTable, ac: CTable, diff: int, s: seq<bit>, pos: nat)
    requires Matching(t, c) && |ac.ehufco| == |ac.ehufsi| == 256
    requires |c.ehufco| == |c.ehufsi| == 256 && HaveCodes(DcTokens(diff), c, ac)
    requires Holds(s, pos, TokensBits(DcTokens(diff), c, ac))
    ensures WellFormed(t) && Upto(t.bits, 16) <= 256
    ensures ParseDcDiff(t, s, pos) == (diff, pos + |TokensBits(DcTokens(diff), c, ac)|)
  {
    hide Matching, Holds, Word, Decode, Category, Extend, Pow2, TokensBits, HaveCodes;
    MatchingSizes(t, c);
    CategoryZero(diff);
    var n := Category(diff);
    var sym, ext := [DcSymbol(n)], if diff == 0 then [] else [Extra(Complemented(diff), n)];
    OneToken(DcSymbol(n), c, ac);
    NoToken(c, ac);
    if diff != 0 {
      OneToken(Extra(Complemented(diff), n), c, ac);
    }
    TokensAppend(sym, ext, c, ac);
    HoldsSplit(s, pos, TokensBits(sym, c, ac), TokensBits(ext, c, ac));
    SymbolDecoded(t, c, n, s, pos);
    if diff != 0 {
      ExtraDecoded(diff, s, pos + |TokensBits(sym, c, ac)|);
    }
  }

  lemma NoToken(dc: CTable, ac: CTable)
    requires |dc.ehufco| == |dc.ehufsi| == |ac.ehufco| == |ac.ehufsi| == 256
    ensures TokensBits([], dc, ac) == [] && HaveCodes([], dc, ac)
  {
  }

  lemma CategoryZero(x: int)
    ensures Category(x) == 0 <==> x == 0
  {
  }

  /** Runs of sixteen zeros move the decoder on. */
  lemma {:induction false} ZrlsParsed(t: Table, c: CTable, dc: CTable, r: nat, m: nat, k: nat, se: nat,
                                      b: Zigzag, s: seq<bit>, pos: nat)
    requires Matching(t, c) && |c.ehufco| == |c.ehufsi| == |dc.ehufco| == |dc.ehufsi| == 256
    requires WellFormed(t) && Upto(t.bits, 16) <= 256 && m == r % 16 && m <= r <= k <= se < 64
    requires HaveCodes(Zrls(r), dc, c) && Holds(s, pos, TokensBits(Zrls(r), dc, c))
    ensures ParseAc(t, s, pos, k - r, se, b)
         == ParseAc(t, s, pos + |TokensBits(Zrls(r), dc, c)|, k - m, se, b)
    decreases r
  {
    hide Matching, Holds, Word, Decode, Extend, Pow2, TokensBits, HaveCodes, Place;
    if r > 15 {
      OneToken(AcSymbol(0xF0), dc, c);
      TokensAppend([AcSymbol(0xF0)], Zrls(r - 16), dc, c);
      HoldsSplit(s, pos, TokensBits([AcSymbol(0xF0)], dc, c), TokensBits(Zrls(r - 16), dc, c));
      SymbolDecoded(t, c, 0xF0, s, pos);
      ZrlsParsed(t, c, dc, r - 16, m, k, se, b, s, pos + c.ehufsi[0xF0]);
    } else {
      NoToken(dc, c);
    }
  }

  /** A coefficient after fewer than sixteen zeros is stored in its place. */
  lemma CoefParsed(t: Table, c: CTable, dc: CTable, r: nat, x: int, k: nat, se: nat, b: Zigzag,
                   s: seq<bit>, pos: nat)
    requires Matching(t, c) && |c.ehufco| == |c.ehufsi| == |dc.ehufco| == |dc.ehufsi| == 256
    requires WellFormed(t) && Upto(t.bits, 16) <= 256 && r < 16 && r <= k <= se < 64
    requires x != 0 && Category(x) <= 15 && -0x8000 <= x < 0x8000
    requires HaveCodes(Coef(r, x), dc, c) && Holds(s, pos, TokensBits(Coef(r, x), dc, c))
    ensures ParseAc(t, s, pos, k - r, se, b)
         == ParseAc(t, s, pos + |TokensBits(Coef(r, x), dc, c)|, k + 1, se, b[k := x])
  {
    hide Matching, Holds, Word, Decode, Extend, Pow2, TokensBits, HaveCodes, Category;
    CategoryZero(x);
    var n := Category(x);
    var sym, ext := [AcSymbol(16 * r + n)], [Extra(Complemented(x), n)];
    OneToken(AcSymbol(16 * r + n), dc, c);
    OneToken(Extra(Complemented(x), n), dc, c);
    TokensAppend(sym, ext, dc, c);
    HoldsSplit(s, pos, TokensBits(sym, dc, c), TokensBits(ext, dc, c));
    SymbolDecoded(t, c, 16 * r + n, s, pos);
    ExtraDecoded(x, s, pos + |TokensBits(sym, dc, c)|);
  }

  /** The AC tokens bring every coefficient back, also when the block ends with
      zeros or without an end-of-block symbol. */
  lemma {:induction false} AcParsed(t: Table, c: CTable, dc: CTable, cs: seq<int>, r: nat, k: nat, se: nat,
                                    b: Zigzag, s: seq<bit>, pos: nat)
    requires Matching(t, c) && |c.ehufco| == |c.ehufsi| == |dc.ehufco| == |dc.ehufsi| == 256
    requires WellFormed(t) && Upto(t.bits, 16) <= 256 && se < 64 && k + |cs| == se + 1 && r <= k
    requires forall i :: 0 <= i < |cs| ==> Category(cs[i]) <= MAX_COEF_BITS && -0x8000 <= cs[i] < 0x8000
    requires forall j :: k <= j <= se ==> b[j] == 0
    requires HaveCodes(AcTokens(cs, r), dc, c) && Holds(s, pos, TokensBits(AcTokens(cs, r), dc, c))
    ensures ParseAc(t, s, pos, k - r, se, b)
         == (Replace(b, k, cs), pos + |TokensBits(AcTokens(cs, r), dc, c)|)
    decreases |cs|, 1
  {
    hide Matching, Holds, Word, Decode, Extend, Pow2, TokensBits, HaveCodes, Category, Replace, Coef, Zrls;
    if cs == [] {
      assert Replace(b, k, cs) == b;
      NoToken(dc, c);
      if r > 0 {
        OneToken(AcSymbol(0), dc, c);
        SymbolDecoded(t, c, 0, s, pos);
      }
    } else if cs[0] == 0 {
      AcParsed(t, c, dc, cs[1..], r + 1, k + 1, se, b, s, pos);
      assert Replace(b, k, cs) == Replace(b, k + 1, cs[1..]);
    } else {
      FoundParsed(t, c, dc, cs, r, k, se, b, s, pos);
    }
  }

  lemma {:induction false} FoundParsed(t: Table, c: CTable, dc: CTable, cs: seq<int>, r: nat, k: nat, se: nat,
                                       b: Zigzag, s: seq<bit>, pos: nat)
    requires Matching(t, c) && |c.ehufco| == |c.ehufsi| == |dc.ehufco| == |dc.ehufsi| == 256
    requires WellFormed(t) && Upto(t.bits, 16) <= 256 && se < 64 && k + |cs| == se + 1 && r <= k
    requires forall i :: 0 <= i < |cs| ==> Category(cs[i]) <= MAX_COEF_BITS && -0x8000 <= cs[i] < 0x8000
    requires forall j :: k <= j <= se ==> b[j] == 0
    requires cs != [] && cs[0] != 0
    requires HaveCodes(AcTokens(cs, r), dc, c) && Holds(s, pos, TokensBits(AcTokens(cs, r), dc, c))
    ensures ParseAc(t, s, pos, k - r, se, b)
         == (Replace(b, k, cs), pos + |TokensBits(AcTokens(cs, r), dc, c)|)
    decreases |cs|, 0
  {
    hide Matching, Holds, Word, Decode, Extend, Pow2, TokensBits, HaveCodes, Category, Replace, Coef, Zrls,
      ParseAc;
    var zrls, coef, rest := Zrls(r), Coef(r % 16, cs[0]), AcTokens(cs[1..], 0);
    TokensAppend(zrls, coef + rest, dc, c);
    TokensAppend(coef, rest, dc, c);
    var z, f := TokensBits(zrls, dc, c), TokensBits(coef, dc, c);
    HoldsSplit(s, pos, z, f + TokensBits(rest, dc, c));
    HoldsSplit(s, pos + |z|, f, TokensBits(rest, dc, c));
    ZrlsParsed(t, c, dc, r, r % 16, k, se, b, s, pos);
    CoefParsed(t, c, dc, r % 16, cs[0], k, se, b, s, pos + |z|);
    AcParsed(t, c, dc, cs[1..], 0, k + 1, se, b[k := cs[0]], s, pos + |z| + |f|);
    assert Replace(b, k, cs) == Replace(b[k := cs[0]], k + 1, cs[1..]);
  }
}
