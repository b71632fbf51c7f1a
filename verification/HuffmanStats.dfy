/** Gathering symbol statistics (jchuff.c): the trial pass counts exactly the symbols
    the output pass sends, so generated tables have a code for each of them. */
module HuffmanStats {
  import opened Coefficients
  import opened HuffmanCode
  import opened HuffmanTables
  import opened HuffmanTree
  import opened HuffmanOptimal
  import opened HuffmanBlock
  import opened HuffmanMcuEncoding

  function Symbol(isDC: bool, y: nat): Token
  {
    if isDC then DcSymbol(y) else AcSymbol(y)
  }

  /** Every counter has grown by the occurrences of its symbol in `ks`. */
  ghost predicate Tallied(was: seq<nat>, now: seq<nat>, ks: seq<Token>, isDC: bool)
  {
    && |was| == |now| == SYMBOLS && now[256] == was[256]
    && forall y :: 0 <= y < 256 ==> now[y] == was[y] + multiset(ks)[Symbol(isDC, y)]
  }

  lemma TalliedNone(was: seq<nat>, isDC: bool)
    requires |was| == SYMBOLS
    ensures Tallied(was, was, [], isDC)
  {
  }

  lemma TalliedMore(was: seq<nat>, now: seq<nat>, ks: seq<Token>, isDC: bool, more: seq<Token>, y: nat)
    requires Tallied(was, now, ks, isDC) && y < 256
    requires forall z :: 0 <= z < 256 ==> multiset(more)[Symbol(isDC, z)] == if z == y then 1 else 0
    ensures Tallied(was, now[y := now[y] + 1], ks + more, isDC)
  {
    assert multiset(ks + more) == multiset(ks) + multiset(more);
  }

  lemma TalliedOther(was: seq<nat>, now: seq<nat>, ks: seq<Token>, isDC: bool, more: seq<Token>)
    requires Tallied(was, now, ks, isDC)
    requires forall z :: 0 <= z < 256 ==> multiset(more)[Symbol(isDC, z)] == 0
    ensures Tallied(was, now, ks + more, isDC)
  {
    assert multiset(ks + more) == multiset(ks) + multiset(more);
  }

  /** Both tables of counters after the tokens `ks`. */
  ghost predicate BothTallied(dcWas: seq<nat>, dcNow: seq<nat>, acWas: seq<nat>, acNow: seq<nat>,
                              ks: seq<Token>)
  {
    Tallied(dcWas, dcNow, ks, true) && Tallied(acWas, acNow, ks, false)
  }

  lemma CountDcTokens(dcWas: seq<nat>, acWas: seq<nat>, diff: int)
    requires |dcWas| == |acWas| == SYMBOLS && Category(diff) < 256
    ensures var n := Category(diff);
      BothTallied(dcWas, dcWas[n := dcWas[n] + 1], acWas, acWas, DcTokens(diff))
  {
    hide Category;
    TalliedNone(dcWas, true);
    TalliedNone(acWas, false);
    TalliedMore(dcWas, dcWas, [], true, DcTokens(diff), Category(diff));
    TalliedOther(acWas, acWas, [], false, DcTokens(diff));
    assert [] + DcTokens(diff) == DcTokens(diff);
  }

  /** One AC symbol and perhaps extra bits. */
  lemma CountAc(dcWas: seq<nat>, dcNow: seq<nat>, acWas: seq<nat>, acNow: seq<nat>, ks: seq<Token>,
                y: nat, extra: seq<Token>)
    requires BothTallied(dcWas, dcNow, acWas, acNow, ks) && y < 256
    requires extra == [] || (|extra| == 1 && extra[0].Extra?)
    ensures BothTallied(dcWas, dcNow, acWas, acNow[y := acNow[y] + 1], ks + ([AcSymbol(y)] + extra))
  {
    var more := [AcSymbol(y)] + extra;
    assert multiset(more) == multiset{AcSymbol(y)} + multiset(extra);
    assert forall k :: k in extra ==> k.Extra?;
    TalliedMore(acWas, acNow, ks, false, more, y);
    TalliedOther(dcWas, dcNow, ks, true, more);
  }

  /** Count the runs of sixteen zeros. */
  method CountZrls(acCounts: array<nat>, run: nat, ghost dcWas: seq<nat>, ghost dcNow: seq<nat>,
                   ghost acWas: seq<nat>, ghost ks: seq<Token>) returns (left: nat)
    requires acCounts.Length == SYMBOLS && BothTallied(dcWas, dcNow, acWas, acCounts[..], ks)
    modifies acCounts
    ensures left == run % 16 && BothTallied(dcWas, dcNow, acWas, acCounts[..], ks + Zrls(run))
  {
    hide BothTallied;
    left := run;
    ghost var done: seq<Token> := [];
    assert ks + [] == ks && [] + Zrls(run) == Zrls(run);
    while left > 15
      invariant left % 16 == run % 16 && done + Zrls(left) == Zrls(run)
      invariant BothTallied(dcWas, dcNow, acWas, acCounts[..], ks + done)
    {
      ghost var counts := acCounts[..];
      CountAc(dcWas, dcNow, acWas, counts, ks + done, 0xF0, []);
      assert [AcSymbol(0xF0)] + [] == [AcSymbol(0xF0)];
      acCounts[0xF0] := acCounts[0xF0] + 1;
      assert acCounts[..] == counts[0xF0 := counts[0xF0] + 1];
      Regroup(ks, done, [AcSymbol(0xF0)]);
      Regroup(done, [AcSymbol(0xF0)], Zrls(left - 16));
      left := left - 16;
      done := done + [AcSymbol(0xF0)];
    }
    assert done + [] == done;
  }

  /** htest_one_block: it fails exactly when a magnitude is out of range, and
      otherwise counts each symbol of the block's tokens once. */
  method HtestOneBlock(order: seq<nat>, block: Zigzag, last: int, se: nat, dcCounts: array<nat>,
                       acCounts: array<nat>) returns (ok: bool)
    requires dcCounts.Length == acCounts.Length == SYMBOLS && dcCounts != acCounts
    requires IsOrder(order) && se < 64
    modifies dcCounts, acCounts
    ensures var x := InZigzag(order, block); var diff, c := x[0] - last, x[1..se + 1];
      && (ok <==> InRange(diff, c))
      && (ok ==> BothTallied(old(dcCounts[..]), dcCounts[..], old(acCounts[..]), acCounts[..],
                             BlockTokens(diff, c)))
  {
    hide BothTallied, Category, AcTokens, DcTokens, InZigzag, IsOrder, Zrls, Coef;
    OrderMeans(order, block);
    ghost var dcWas, acWas := dcCounts[..], acCounts[..];
    var diff := block[0] - last;
    CategoryAbs(diff);
    var nbits := NumberOfBits(Abs(diff));
    if nbits > MAX_COEF_BITS + 1 {
      return false;
    }
    CountDcTokens(dcWas, acWas, diff);
    dcCounts[nbits] := dcCounts[nbits] + 1;
    assert dcCounts[..] == dcWas[nbits := dcWas[nbits] + 1];
    ok := CountAcTokens(order, block, se, acCounts, dcWas, dcCounts[..], acWas, DcTokens(diff));
  }

  lemma AcTokensStep(c: seq<int>, r: nat)
    ensures c == [] ==> AcTokens(c, r) == if r > 0 then [AcSymbol(0)] + [] else []
    ensures c != [] && c[0] == 0 ==> AcTokens(c, r) == AcTokens(c[1..], r + 1)
    ensures c != [] && c[0] != 0 ==>
              && AcTokens(c, r) == Zrls(r) + (Coef(r % 16, c[0]) + AcTokens(c[1..], 0))
              && Coef(r % 16, c[0]) == [AcSymbol(16 * (r % 16) + Category(c[0]))]
                                       + [Extra(Complemented(c[0]), Category(c[0]))]
  {
  }

  method CountAcTokens(order: seq<nat>, block: Zigzag, se: nat, acCounts: array<nat>, ghost dcWas: seq<nat>,
                       ghost dcNow: seq<nat>, ghost acWas: seq<nat>, ghost ks: seq<Token>) returns (ok: bool)
    requires acCounts.Length == SYMBOLS && BothTallied(dcWas, dcNow, acWas, acCounts[..], ks)
    requires IsOrder(order) && se < 64
    modifies acCounts
    ensures var c := InZigzag(order, block)[1..se + 1];
      && (ok <==> SmallCoefs(c))
      && (ok ==> BothTallied(dcWas, dcNow, acWas, acCounts[..], ks + AcTokens(c, 0)))
  {
    hide BothTallied, Category, AcTokens, InZigzag, IsOrder, Zrls, Coef;
    OrderMeans(order, block);
    ghost var c := InZigzag(order, block)[1..se + 1];
    ghost var all := ks + AcTokens(c, 0);
    ghost var done := ks;
    assert c[0..] == c;
    var r := 0;
    for k := 1 to se + 1
      invariant done + AcTokens(c[k - 1..], r) == all && SmallCoefs(c[..k - 1])
      invariant BothTallied(dcWas, dcNow, acWas, acCounts[..], done)
    {
      var x := block[order[k]];
      AcTokensStep(c[k - 1..], r);
      assert c[..k] == c[..k - 1] + [x] && c[k - 1..][1..] == c[k..] && c[k - 1..][0] == x;
      if x == 0 {
        CategoryZero(x);
        r := r + 1;
      } else {
        ghost var zrls, coef, rest := Zrls(r), Coef(r % 16, x), AcTokens(c[k..], 0);
        Regroup(done, zrls, coef + rest);
        Regroup(done + zrls, coef, rest);
        var left := CountZrls(acCounts, r, dcWas, dcNow, acWas, done);
        CategoryAbs(x);
        var nbits := NumberOfBits(Abs(x));
        if nbits > MAX_COEF_BITS {
          assert c[k - 1] == x;
          return false;
        }
        ghost var counts := acCounts[..];
        var y := 16 * left + nbits;
        CountAc(dcWas, dcNow, acWas, counts, done + zrls, y, [Extra(Complemented(x), nbits)]);
        acCounts[y] := acCounts[y] + 1;
        assert acCounts[..] == counts[y := counts[y] + 1];
        done := done + zrls + coef;
        r := 0;
      }
    }
    assert c[se..] == [] && c[..se] == c;
    AcTokensStep([], r);
    if r > 0 {
      ghost var counts := acCounts[..];
      CountAc(dcWas, dcNow, acWas, counts, done, 0, []);
      acCounts[0] := acCounts[0] + 1;
      assert acCounts[..] == counts[0 := counts[0] + 1];
    } else {
      assert done + [] == done;
    }
    ok := true;
  }

  // ------------------------------------------------------- generated tables

  /** The table was generated for the counts `f`. */
  ghost predicate GeneratedFor(f: seq<nat>, t: Table, c: CTable)
    requires |f| == 256
  {
    && Matching(t, c) && Upto(t.bits, 16) == Roots(f)
    && exists sizes :: |sizes| == 257 && ListsSymbols(f, sizes, t.vals, Roots(f))
  }

  lemma CountedHasCode(f: seq<nat>, t: Table, c: CTable, y: nat)
    requires |f| == 256 && GeneratedFor(f, t, c) && y < 256 && f[y] != 0
    ensures |c.ehufsi| == 256 && c.ehufsi[y] != 0
  {
    hide Next, LenOf, CodeOf, Roots;
    var sizes :| |sizes| == 257 && ListsSymbols(f, sizes, t.vals, Roots(f));
    var n := Upto(t.bits, 16);
    assert y in t.vals[..n];
    var p :| 0 <= p < n && t.vals[..n][p] == y;
    assert c.ehufsi[t.vals[p]] == LenOf(t.bits, p, 16);
  }
}
