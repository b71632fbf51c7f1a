/** Encoding a block and gathering its statistics (jchuff.c, sequential mode). */
module HuffmanMcuEncoding {
  import opened Powers
  import opened BitStreams
  import opened Coefficients
  import opened HuffmanTables
  import opened HuffmanWriter
  import opened HuffmanBlock

  /** Number of bits of a magnitude. */
  method NumberOfBits(magnitude: nat) returns (nbits: nat)
    ensures nbits == Category(magnitude)
  {
    var temp := magnitude;
    nbits := 0;
    while temp != 0
      invariant nbits + Category(temp) == Category(magnitude)
      decreases temp
    {
      nbits := nbits + 1;
      temp := temp / 2;
    }
  }

  lemma CategoryAbs(x: int)
    ensures Category(x) == Category(Abs(x))
  {
  }

  /** All bits since the old state are those of the tokens `ks`. */
  twostate predicate Sent(w: BitWriter, ks: seq<Token>, dc: CTable, ac: CTable)
    requires |dc.ehufco| == |dc.ehufsi| == |ac.ehufco| == |ac.ehufsi| == 256
    reads w
  {
    w.Valid() && w.before == old(w.before) && w.bits == old(w.bits) + TokensBits(ks, dc, ac)
  }

  predicate Sizes(dc: CTable, ac: CTable)
  {
    && |dc.ehufco| == |dc.ehufsi| == |ac.ehufco| == |ac.ehufsi| == 256
    && (forall y :: 0 <= y < 256 ==> dc.ehufsi[y] <= 16)
    && forall y :: 0 <= y < 256 ==> ac.ehufsi[y] <= 16
  }

  method EmitDc(w: BitWriter, dc: CTable, ghost ac: CTable, y: nat) returns (ok: bool)
    requires w.Valid() && Sizes(dc, ac) && y < 256
    modifies w
    ensures ok <==> HaveCodes([DcSymbol(y)], dc, ac)
    ensures ok ==> Sent(w, [DcSymbol(y)], dc, ac)
  {
    hide BitWriter.Valid, TokensBits, HaveCodes, Word;
    OneToken(DcSymbol(y), dc, ac);
    CodeFits(dc.ehufco[y], dc.ehufsi[y]);
    ok := w.EmitBits(dc.ehufco[y], dc.ehufsi[y]);
  }

  lemma CodeFits(v: nat, n: nat)
    ensures Word(v % Pow2(n), n) == Word(v, n)
  {
    var p: int, x: int := Pow2(n), v;
    hide Pow2;
    LowPart(x, p);
    WordMod(v, v % p, x / p, n);
  }

  lemma LowPart(x: int, p: int)
    requires 0 < p
    ensures x == x / p * p + x % p
  {
  }

  /** The low bits only matter. */
  lemma {:induction false} WordMod(v: nat, w: nat, q: int, n: nat)
    requires v == q * Pow2(n) + w
    ensures Word(v, n) == Word(w, n)
  {
    if n != 0 {
      var p: int := Pow2(n - 1);
      MulShuffle(q, p, 2);
      assert v == 2 * (q * p) + w;
      WordMod(v / 2, w / 2, q, n - 1);
    }
  }

  method EmitAc(w: BitWriter, ghost dc: CTable, ac: CTable, y: nat) returns (ok: bool)
    requires w.Valid() && Sizes(dc, ac) && y < 256
    modifies w
    ensures ok <==> HaveCodes([AcSymbol(y)], dc, ac)
    ensures ok ==> Sent(w, [AcSymbol(y)], dc, ac)
  {
    hide BitWriter.Valid, TokensBits, HaveCodes, Word;
    OneToken(AcSymbol(y), dc, ac);
    CodeFits(ac.ehufco[y], ac.ehufsi[y]);
    ok := w.EmitBits(ac.ehufco[y], ac.ehufsi[y]);
  }

  method EmitExtra(w: BitWriter, ghost dc: CTable, ghost ac: CTable, v: int, n: nat)
    requires w.Valid() && Sizes(dc, ac) && 0 < n <= 16
    modifies w
    ensures Sent(w, [Extra(v, n)], dc, ac) && HaveCodes([Extra(v, n)], dc, ac)
  {
    hide BitWriter.Valid, TokensBits, HaveCodes, Word;
    OneToken(Extra(v, n), dc, ac);
    var _ := w.EmitBits(v, n);
  }

  // ------------------------------------------------------------------ blocks

  /** The DC difference. */
  method EncodeDc(w: BitWriter, dc: CTable, ghost ac: CTable, diff: int) returns (ok: bool)
    requires w.Valid() && Sizes(dc, ac)
    modifies w
    ensures ok <==> Category(diff) <= MAX_COEF_BITS + 1 && HaveCodes(DcTokens(diff), dc, ac)
    ensures ok ==> Sent(w, DcTokens(diff), dc, ac)
  {
    hide BitWriter.Valid, TokensBits, HaveCodes, Category, Sizes;
    CategoryAbs(diff);
    CategoryZero(diff);
    SizesMean(dc, ac);
    NoToken(dc, ac);
    var nbits := NumberOfBits(Abs(diff));
    if nbits > MAX_COEF_BITS + 1 {
      return false;
    }
    ghost var rest := if diff == 0 then [] else [Extra(Complemented(diff), nbits)];
    TokensAppend([DcSymbol(nbits)], rest, dc, ac);
    ok := EmitDc(w, dc, ac, nbits);
    if ok && nbits != 0 {
      EmitExtra(w, dc, ac, Complemented(diff), nbits);
    }
  }

  lemma SizesMean(dc: CTable, ac: CTable)
    requires Sizes(dc, ac)
    ensures |dc.ehufco| == |dc.ehufsi| == |ac.ehufco| == |ac.ehufsi| == 256
  {
  }

  /** Symbols for runs of sixteen zeros; `left` is what remains of the run. */
  method EncodeZrls(w: BitWriter, ghost dc: CTable, ac: CTable, run: nat) returns (ok: bool, left: nat)
    requires w.Valid() && Sizes(dc, ac)
    modifies w
    ensures ok <==> HaveCodes(Zrls(run), dc, ac)
    ensures ok ==> Sent(w, Zrls(run), dc, ac) && left == run % 16
  {
    hide BitWriter.Valid, TokensBits, HaveCodes, Sizes;
    SizesMean(dc, ac);
    NoToken(dc, ac);
    left := run;
    ghost var done: seq<Token> := [];
    assert [] + Zrls(run) == Zrls(run);
    while left > 15
      invariant Sent(w, done, dc, ac) && done + Zrls(left) == Zrls(run) && HaveCodes(done, dc, ac)
      invariant left % 16 == run % 16
    {
      ghost var zrl, rest := [AcSymbol(0xF0)], Zrls(left - 16);
      TokensAppend(done, zrl + rest, dc, ac);
      TokensAppend(zrl, rest, dc, ac);
      TokensAppend(done, zrl, dc, ac);
      Regroup(done, zrl, rest);
      ok := EmitAc(w, dc, ac, 0xF0);
      if !ok {
        return;
      }
      left := left - 16;
      done := done + zrl;
    }
    assert done + [] == done;
    ok := true;
  }

  /** A nonzero coefficient after fewer than sixteen zeros. */
  method EncodeCoef(w: BitWriter, ghost dc: CTable, ac: CTable, r: nat, x: int) returns (ok: bool)
    requires w.Valid() && Sizes(dc, ac) && r < 16 && x != 0
    modifies w
    ensures ok <==> Category(x) <= MAX_COEF_BITS && HaveCodes(Coef(r, x), dc, ac)
    ensures ok ==> Sent(w, Coef(r, x), dc, ac)
  {
    hide BitWriter.Valid, TokensBits, HaveCodes, Category, Sizes;
    CategoryAbs(x);
    CategoryZero(x);
    SizesMean(dc, ac);
    var nbits := NumberOfBits(Abs(x));
    if nbits > MAX_COEF_BITS {
      return false;
    }
    TokensAppend([AcSymbol(16 * r + nbits)], [Extra(Complemented(x), nbits)], dc, ac);
    ok := EmitAc(w, dc, ac, 16 * r + nbits);
    if ok {
      EmitExtra(w, dc, ac, Complemented(x), nbits);
    }
  }

  ghost predicate SmallCoefs(c: seq<int>)
  {
    forall i :: 0 <= i < |c| ==> Category(c[i]) <= MAX_COEF_BITS
  }

  /** The tokens `done` of the coefficients before `c`, with `r` zeros pending. */
  ghost predicate Before(all: seq<Token>, done: seq<Token>, c: seq<int>, r: nat, dc: CTable, ac: CTable)
    requires |dc.ehufsi| == |ac.ehufsi| == 256
  {
    done + AcTokens(c, r) == all && HaveCodes(done, dc, ac)
  }

  lemma BeforeZero(all: seq<Token>, done: seq<Token>, c: seq<int>, r: nat, dc: CTable, ac: CTable)
    requires |dc.ehufsi| == |ac.ehufsi| == 256 && c != [] && c[0] == 0
    ensures Before(all, done, c, r, dc, ac) == Before(all, done, c[1..], r + 1, dc, ac)
  {
  }

  /** The next tokens are a run and a coefficient; all of them need codes. */
  lemma BeforeCoef(all: seq<Token>, done: seq<Token>, c: seq<int>, r: nat, dc: CTable, ac: CTable)
    requires |dc.ehufco| == |dc.ehufsi| == |ac.ehufco| == |ac.ehufsi| == 256
    requires c != [] && c[0] != 0 && Before(all, done, c, r, dc, ac)
    ensures var zrls, coef := Zrls(r), Coef(r % 16, c[0]);
      && (HaveCodes(all, dc, ac) ==> HaveCodes(zrls, dc, ac) && HaveCodes(coef, dc, ac))
      && (HaveCodes(zrls, dc, ac) && HaveCodes(coef, dc, ac) ==>
            Before(all, done + zrls + coef, c[1..], 0, dc, ac))
      && TokensBits(done + zrls, dc, ac) == TokensBits(done, dc, ac) + TokensBits(zrls, dc, ac)
      && TokensBits(done + zrls + coef, dc, ac) == TokensBits(done + zrls, dc, ac) + TokensBits(coef, dc, ac)
  {
    hide HaveCodes, TokensBits, Zrls, Coef;
    var zrls, coef, rest := Zrls(r), Coef(r % 16, c[0]), AcTokens(c[1..], 0);
    TokensAppend(done, zrls + (coef + rest), dc, ac);
    TokensAppend(zrls, coef + rest, dc, ac);
    TokensAppend(coef, rest, dc, ac);
    TokensAppend(done, zrls, dc, ac);
    TokensAppend(done + zrls, coef, dc, ac);
    Regroup(done, zrls, coef + rest);
    Regroup(done + zrls, coef, rest);
  }

  lemma BeforeEnd(all: seq<Token>, done: seq<Token>, r: nat, dc: CTable, ac: CTable)
    requires |dc.ehufco| == |dc.ehufsi| == |ac.ehufco| == |ac.ehufsi| == 256
    requires Before(all, done, [], r, dc, ac)
    ensures r == 0 ==> all == done && HaveCodes(all, dc, ac)
    ensures r > 0 ==> && all == done + [AcSymbol(0)]
                      && (HaveCodes(all, dc, ac) <==> HaveCodes([AcSymbol(0)], dc, ac))
                      && TokensBits(all, dc, ac) == TokensBits(done, dc, ac) + TokensBits([AcSymbol(0)], dc, ac)
  {
    TokensAppend(done, [AcSymbol(0)], dc, ac);
  }

  /** The AC coefficients up to `se` (section F.1.2.2). */
  method EncodeAc(w: BitWriter, ghost dc: CTable, ac: CTable, order: seq<nat>, block: Zigzag, se: nat)
    returns (ok: bool)
    requires w.Valid() && Sizes(dc, ac) && IsOrder(order) && se < 64
    modifies w
    ensures var c := InZigzag(order, block)[1..se + 1];
      && (ok <==> SmallCoefs(c) && HaveCodes(AcTokens(c, 0), dc, ac))
      && (ok ==> Sent(w, AcTokens(c, 0), dc, ac))
  {
    hide BitWriter.Valid, TokensBits, HaveCodes, Category, Sizes, AcTokens, Zrls, Coef, Before, InZigzag, IsOrder;
    SizesMean(dc, ac);
    NoToken(dc, ac);
    OrderMeans(order, block);
    ghost var c := InZigzag(order, block)[1..se + 1];
    ghost var all := AcTokens(c, 0);
    ghost var done: seq<Token> := [];
    BeforeStart(c, dc, ac);
    var r := 0;
    for k := 1 to se + 1
      invariant Before(all, done, c[k - 1..], r, dc, ac) && SmallCoefs(c[..k - 1])
      invariant Sent(w, done, dc, ac)
    {
      var x := block[order[k]];
      assert c[..k] == c[..k - 1] + [x] && c[k - 1..][1..] == c[k..] && c[k - 1..][0] == x;
      if x == 0 {
        BeforeZero(all, done, c[k - 1..], r, dc, ac);
        CategoryZero(x);
        r := r + 1;
      } else {
        BeforeCoef(all, done, c[k - 1..], r, dc, ac);
        ghost var zrls, coef := Zrls(r), Coef(r % 16, x);
        var left;
        ok, left := EncodeZrls(w, dc, ac, r);
        if ok {
          ok := EncodeCoef(w, dc, ac, left, x);
        }
        if !ok {
          assert !SmallCoefs(c) || !HaveCodes(all, dc, ac) by { assert c[k - 1] == x; }
          return;
        }
        done := done + zrls + coef;
        r := 0;
      }
    }
    assert c[se..] == [] && c[..se] == c;
    BeforeEnd(all, done, r, dc, ac);
    ok := true;
    if r > 0 {
      ok := EmitAc(w, dc, ac, 0);
    }
  }

  lemma OrderMeans(order: seq<nat>, block: Zigzag)
    requires IsOrder(order)
    ensures |order| == 64 && forall k :: 0 <= k < 64 ==> order[k] < 64 && InZigzag(order, block)[k] == block[order[k]]
    ensures order[0] == 0
  {
  }

  lemma BeforeStart(c: seq<int>, dc: CTable, ac: CTable)
    requires |dc.ehufco| == |dc.ehufsi| == |ac.ehufco| == |ac.ehufsi| == 256
    ensures c[0..] == c && Before(AcTokens(c, 0), [], c, 0, dc, ac) && SmallCoefs([])
  {
  }

  /** encode_one_block: it succeeds exactly when all magnitudes are in range and
      every symbol has a code, and then writes the bits of the block's tokens. */
  method EncodeOneBlock(w: BitWriter, dc: CTable, ac: CTable, order: seq<nat>, block: Zigzag, last: int, se: nat)
    returns (ok: bool)
    requires w.Valid() && Sizes(dc, ac) && IsOrder(order) && se < 64
    modifies w
    ensures var x := InZigzag(order, block); var diff, c := x[0] - last, x[1..se + 1];
      && (ok <==> InRange(diff, c) && HaveCodes(BlockTokens(diff, c), dc, ac))
      && (ok ==> Sent(w, BlockTokens(diff, c), dc, ac))
  {
    hide BitWriter.Valid, TokensBits, HaveCodes, Category, Sizes, AcTokens, DcTokens, InZigzag, IsOrder;
    SizesMean(dc, ac);
    OrderMeans(order, block);
    ghost var x := InZigzag(order, block);
    ghost var diff, c := x[0] - last, x[1..se + 1];
    TokensAppend(DcTokens(diff), AcTokens(c, 0), dc, ac);
    ok := EncodeDc(w, dc, ac, block[0] - last);
    if ok {
      ok := EncodeAc(w, dc, ac, order, block, se);
    }
  }
}
