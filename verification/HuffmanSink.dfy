/** Where the encoder's symbols go (jchuff.c): into the output as bits, or, in a pass
    that gathers statistics, into counters. */
module HuffmanSink {
  import opened Bytes
  import opened BitStreams
  import opened Coefficients
  import T = HuffmanTree
  import opened HuffmanWriter
  import opened HuffmanBlock
  import opened HuffmanScan
  import opened HuffmanStats
  import opened ProgressiveTokens
  import M = HuffmanMcuEncoding

  const NUM_HUFF_TBLS: nat := 4

  /** How often a token occurs for the components with table number `t`. */
  function Occurs(ts: seq<Tagged>, tbls: seq<nat>, t: nat, k: Token): nat
  {
    if ts == [] then 0
    else (if ts[0].ci < |tbls| && tbls[ts[0].ci] == t && ts[0].k == k then 1 else 0) + Occurs(ts[1..], tbls, t, k)
  }

  lemma {:induction false} OccursAppend(a: seq<Tagged>, b: seq<Tagged>, tbls: seq<nat>, t: nat, k: Token)
    ensures Occurs(a + b, tbls, t, k) == Occurs(a, tbls, t, k) + Occurs(b, tbls, t, k)
    decreases |a|
  {
    if a == [] {
      assert a + b == b;
    } else {
      assert (a + b)[1..] == a[1..] + b;
      OccursAppend(a[1..], b, tbls, t, k);
    }
  }

  lemma {:induction false} OccursTag(ci: nat, ks: seq<Token>, tbls: seq<nat>, t: nat, k: Token)
    requires ci < |tbls|
    ensures Occurs(Tag(ci, ks), tbls, t, k) == if tbls[ci] == t then multiset(ks)[k] else 0
    decreases |ks|
  {
    if ks != [] {
      OccursTag(ci, ks[1..], tbls, t, k);
      assert Tag(ci, ks)[1..] == Tag(ci, ks[1..]);
      assert ks == [ks[0]] + ks[1..];
      assert multiset(ks) == multiset{ks[0]} + multiset(ks[1..]);
    }
  }

  lemma {:induction false} OccursOnce(ts: seq<Tagged>, tbls: seq<nat>, i: nat)
    requires i < |ts| && ts[i].ci < |tbls|
    ensures Occurs(ts, tbls, tbls[ts[i].ci], ts[i].k) > 0
    decreases |ts|
  {
    if i != 0 {
      OccursOnce(ts[1..], tbls, i - 1);
    }
  }

  /** The counters tell how often each symbol occurs. */
  ghost predicate Counted(counts: seq<seq<nat>>, tbls: seq<nat>, total: seq<Tagged>, isDC: bool)
  {
    && |counts| == NUM_HUFF_TBLS
    && forall t :: 0 <= t < |counts| ==> CountedIn(counts[t], tbls, total, isDC, t)
  }

  ghost predicate CountedIn(now: seq<nat>, tbls: seq<nat>, total: seq<Tagged>, isDC: bool, t: nat)
  {
    && |now| == T.SYMBOLS && now[256] == 0
    && forall y :: 0 <= y < 256 ==> now[y] == Occurs(total, tbls, t, Symbol(isDC, y))
  }

  /** More tokens of component `ci`, counted in its table. */
  lemma CountedMore(counts: seq<seq<nat>>, tbls: seq<nat>, total: seq<Tagged>, isDC: bool, ci: nat, ks: seq<Token>,
                    now: seq<nat>)
    requires Counted(counts, tbls, total, isDC) && ci < |tbls| && tbls[ci] < NUM_HUFF_TBLS
    requires Tallied(counts[tbls[ci]], now, ks, isDC)
    ensures Counted(counts[tbls[ci] := now], tbls, total + Tag(ci, ks), isDC)
  {
    var all := counts[tbls[ci] := now];
    forall t | 0 <= t < |all|
      ensures CountedIn(all[t], tbls, total + Tag(ci, ks), isDC, t)
    {
      assert CountedIn(counts[t], tbls, total, isDC, t);
      forall y | 0 <= y < 256
        ensures all[t][y] == Occurs(total + Tag(ci, ks), tbls, t, Symbol(isDC, y))
      {
        OccursAppend(total, Tag(ci, ks), tbls, t, Symbol(isDC, y));
        OccursTag(ci, ks, tbls, t, Symbol(isDC, y));
      }
    }
  }

  ghost function Snap(arrs: seq<array<nat>>): (s: seq<seq<nat>>)
    reads arrs
    ensures |s| == |arrs| && forall i :: 0 <= i < |arrs| ==> s[i] == arrs[i][..]
  {
    if arrs == [] then [] else [arrs[0][..]] + Snap(arrs[1..])
  }

  ghost predicate Apart(a: seq<array<nat>>, b: seq<array<nat>>)
  {
    && (forall i :: 0 <= i < |a| ==> a[i].Length == T.SYMBOLS)
    && (forall i :: 0 <= i < |b| ==> b[i].Length == T.SYMBOLS)
    && (forall i, j :: 0 <= i < j < |a| ==> a[i] != a[j])
    && (forall i, j :: 0 <= i < j < |b| ==> b[i] != b[j])
    && forall i, j :: 0 <= i < |a| && 0 <= j < |b| ==> a[i] != b[j]
  }

  /** What has gone into a sink. */
  datatype Mark = Mark(sent: seq<Tagged>, total: seq<Tagged>, before: seq<byte>)

  ghost predicate Extends(gather: bool, was: Mark, now: Mark, ci: nat, ks: seq<Token>)
  {
    && now.sent == was.sent + Tag(ci, ks) && now.total == was.total + Tag(ci, ks)
    && (!gather ==> now.before == was.before)
  }

  class SymbolSink {
    const gather: bool
    const w: BitWriter
    const tables: seq<CompTables>        // codes of the components, in an output pass
    const dcTbl: seq<nat>                // table numbers of the components
    const acTbl: seq<nat>
    const dcCounts: seq<array<nat>>
    const acCounts: seq<array<nat>>

    ghost var sent: seq<Tagged>          // tokens of the segment
    ghost var total: seq<Tagged>         // and of all segments

    ghost predicate Parameters()
    {
      && |dcTbl| == |acTbl| && |dcCounts| == |acCounts| == NUM_HUFF_TBLS && Apart(dcCounts, acCounts)
      && (forall ci :: 0 <= ci < |dcTbl| ==> dcTbl[ci] < NUM_HUFF_TBLS && acTbl[ci] < NUM_HUFF_TBLS)
      && (!gather ==> |tables| == |dcTbl| && forall ci :: 0 <= ci < |tables| ==> Usable(tables[ci]))
    }

    ghost predicate Valid()
      reads this, w, dcCounts, acCounts
    {
      && Parameters()
      && (if gather then Counted(Snap(dcCounts), dcTbl, total, true) && Counted(Snap(acCounts), acTbl, total, false)
          else w.Valid() && w.bits == TaggedBits(tables, sent))
    }

    /** start_pass: counters zeroed, or an empty bit buffer. */
    constructor (gather: bool, w: BitWriter, tables: seq<CompTables>, dcTbl: seq<nat>, acTbl: seq<nat>,
                 dcCounts: seq<array<nat>>, acCounts: seq<array<nat>>)
      requires |dcTbl| == |acTbl| && |dcCounts| == |acCounts| == NUM_HUFF_TBLS && Apart(dcCounts, acCounts)
      requires forall ci :: 0 <= ci < |dcTbl| ==> dcTbl[ci] < NUM_HUFF_TBLS && acTbl[ci] < NUM_HUFF_TBLS
      requires !gather ==> |tables| == |dcTbl| && forall ci :: 0 <= ci < |tables| ==> Usable(tables[ci])
      requires !gather ==> w.Valid() && w.bits == []
      requires gather ==> forall t, y :: 0 <= t < NUM_HUFF_TBLS && 0 <= y < T.SYMBOLS ==>
                            dcCounts[t][y] == 0 && acCounts[t][y] == 0
      ensures Valid() && sent == total == [] && this.gather == gather && this.w == w && this.tables == tables
      ensures this.dcTbl == dcTbl && this.acTbl == acTbl
      ensures this.dcCounts == dcCounts && this.acCounts == acCounts
    {
      this.gather, this.w, this.tables, this.dcTbl, this.acTbl := gather, w, tables, dcTbl, acTbl;
      this.dcCounts, this.acCounts, sent, total := dcCounts, acCounts, [], [];
    }

    lemma Means()
      requires Valid()
      ensures Parameters()
      ensures gather ==> Counted(Snap(dcCounts), dcTbl, total, true) && Counted(Snap(acCounts), acTbl, total, false)
      ensures !gather ==> w.Valid() && w.bits == TaggedBits(tables, sent)
    {
    }

    lemma Again()
      requires Parameters()
      requires gather ==> Counted(Snap(dcCounts), dcTbl, total, true) && Counted(Snap(acCounts), acTbl, total, false)
      requires !gather ==> w.Valid() && w.bits == TaggedBits(tables, sent)
      ensures Valid()
    {
    }

    lemma Table(ci: nat)
      requires Parameters() && ci < |dcTbl|
      ensures |dcTbl| == |acTbl| && |dcCounts| == |acCounts| == NUM_HUFF_TBLS && Apart(dcCounts, acCounts)
      ensures dcTbl[ci] < NUM_HUFF_TBLS && acTbl[ci] < NUM_HUFF_TBLS
      ensures !gather ==> ci < |tables| && Usable(tables[ci])
    {
    }

    /** The sink accepts the tokens. */
    ghost predicate Takes(ci: nat, ks: seq<Token>)
    {
      gather || HaveAll(tables, Tag(ci, ks))
    }

    ghost function Now(): Mark
      reads this, w`before
    {
      Mark(sent, total, w.before)
    }

    lemma NowIs()
      ensures Now() == Mark(sent, total, w.before)
    {
    }

    lemma TakesIs(ci: nat, ks: seq<Token>)
      ensures Takes(ci, ks) <==> gather || HaveAll(tables, Tag(ci, ks))
    {
    }

    lemma TakesMeans(ci: nat, ks: seq<Token>)
      requires Takes(ci, ks)
      ensures !gather ==> HaveAll(tables, Tag(ci, ks))
    {
    }

    /** The tokens have been taken in since `was`. */
    ghost predicate Took(was: Mark, ci: nat, ks: seq<Token>)
      reads this, w, dcCounts, acCounts
    {
      Valid() && Extends(gather, was, Now(), ci, ks)
    }

    lemma TookAll(was: Mark, ci: nat, ks: seq<Token>)
      requires Parameters()
      requires gather ==> Counted(Snap(dcCounts), dcTbl, total, true) && Counted(Snap(acCounts), acTbl, total, false)
      requires !gather ==> w.Valid() && w.bits == TaggedBits(tables, sent)
      requires sent == was.sent + Tag(ci, ks) && total == was.total + Tag(ci, ks)
      requires !gather ==> w.before == was.before
      ensures Took(was, ci, ks)
    {
      Again();
    }

    /** Nothing taken in yet. */
    lemma TookNone(ci: nat)
      requires Valid()
      ensures Took(Now(), ci, [])
    {
    }

    /** Taken in before and after `mid`. */
    lemma TookMore(was: Mark, mid: Mark, ci: nat, ks: seq<Token>, js: seq<Token>)
      requires Extends(gather, was, mid, ci, ks) && Took(mid, ci, js)
      ensures Took(was, ci, ks + js)
    {
      hide SymbolSink.Valid;
      TagAppend(ci, ks, js);
      Regroup(was.sent, Tag(ci, ks), Tag(ci, js));
      Regroup(was.total, Tag(ci, ks), Tag(ci, js));
    }

    lemma TookMeans(was: Mark, ci: nat, ks: seq<Token>)
      requires Took(was, ci, ks)
      ensures Valid() && Extends(gather, was, Now(), ci, ks)
    {
    }

    lemma TakesSplit(ci: nat, ks: seq<Token>, js: seq<Token>)
      ensures Takes(ci, ks + js) <==> Takes(ci, ks) && Takes(ci, js)
    {
      TagAppend(ci, ks, js);
      TaggedAppend(tables, Tag(ci, ks), Tag(ci, js));
    }

    /** A refused token refuses the whole. */
    lemma Refused(ci: nat, all: seq<Token>, done: seq<Token>, x: seq<Token>, rest: seq<Token>)
      requires all == done + (x + rest) && !Takes(ci, x)
      ensures !Takes(ci, all)
    {
      hide SymbolSink.Takes;
      TakesSplit(ci, done, x + rest);
      TakesSplit(ci, x, rest);
    }

    /** More has been taken in since `mid`. */
    lemma Step(was: Mark, mid: Mark, ci: nat, done: seq<Token>, x: seq<Token>)
      requires Extends(gather, was, mid, ci, done) && Took(mid, ci, x) && Takes(ci, done) && Takes(ci, x)
      ensures Took(was, ci, done + x) && Takes(ci, done + x) && Valid()
      ensures Extends(gather, was, Now(), ci, done + x)
    {
      hide SymbolSink.Takes, SymbolSink.Valid, Extends;
      TakesSplit(ci, done, x);
      TookMore(was, mid, ci, done, x);
    }

    lemma Begin(ci: nat)
      requires Valid()
      ensures Took(Now(), ci, []) && Takes(ci, []) && Extends(gather, Now(), Now(), ci, [])
    {
      TookNone(ci);
      TakesNone(ci);
      hide SymbolSink.Takes, SymbolSink.Valid;
    }

    lemma TakesNone(ci: nat)
      ensures Takes(ci, [])
    {
    }

    /** What the bits of the tokens add to the output. */
    lemma Written(ci: nat, ks: seq<Token>)
      requires Parameters() && ci < |dcTbl| && !gather
      ensures |tables| == |dcTbl| && Usable(tables[ci])
      ensures TaggedBits(tables, sent + Tag(ci, ks))
           == TaggedBits(tables, sent) + TokensBits(ks, tables[ci].dc, tables[ci].ac)
      ensures Takes(ci, ks) <==> HaveCodes(ks, tables[ci].dc, tables[ci].ac)
    {
      hide TaggedBits, HaveAll, TokensBits, HaveCodes, M.Sizes;
      TaggedAppend(tables, sent, Tag(ci, ks));
      TagBits(tables, ci, ks);
    }

    lemma UsableMeans(ci: nat)
      requires ci < |tables| && Usable(tables[ci])
      ensures M.Sizes(tables[ci].dc, tables[ci].ac)
      ensures |tables[ci].dc.ehufco| == |tables[ci].dc.ehufsi| == 256
      ensures |tables[ci].ac.ehufco| == |tables[ci].ac.ehufsi| == 256
    {
    }

    lemma TakesAll(ci: nat, ks: seq<Token>)
      requires gather
      ensures Takes(ci, ks)
    {
    }

    method CountDc(ci: nat, y: nat)
      requires Valid() && gather && ci < |dcTbl| && y < 256
      modifies this, dcCounts
      ensures Took(old(Now()), ci, [Symbol(true, y)])
    {
      hide *;
      NowIs();
      ghost var ks := [Symbol(true, y)];
      Means();
      Table(ci);
      CountedOther(Snap(acCounts), acTbl, total, true, ci, y);
      Bump(dcCounts, acCounts, dcTbl[ci], y, dcTbl, total, true, ci);
      sent, total := sent + Tag(ci, ks), total + Tag(ci, ks);
      TookAll(Mark(old(sent), old(total), old(w.before)), ci, ks);
    }

    method CountAc(ci: nat, y: nat)
      requires Valid() && gather && ci < |dcTbl| && y < 256
      modifies this, acCounts
      ensures Took(old(Now()), ci, [Symbol(false, y)])
    {
      hide *;
      NowIs();
      ghost var ks := [Symbol(false, y)];
      Means();
      Table(ci);
      ApartSwap(dcCounts, acCounts);
      CountedOther(Snap(dcCounts), dcTbl, total, false, ci, y);
      Bump(acCounts, dcCounts, acTbl[ci], y, acTbl, total, false, ci);
      sent, total := sent + Tag(ci, ks), total + Tag(ci, ks);
      TookAll(Mark(old(sent), old(total), old(w.before)), ci, ks);
    }

    /** emit_dc_symbol, emit_ac_symbol. */
    method EmitSymbol(isDC: bool, ci: nat, y: nat) returns (ok: bool)
      requires Valid() && ci < |dcTbl| && y < 256
      modifies this, w, dcCounts, acCounts
      ensures ok <==> Takes(ci, [Symbol(isDC, y)])
      ensures ok ==> Took(old(Now()), ci, [Symbol(isDC, y)])
    {
      hide BitWriter.Valid, SymbolSink.Valid, SymbolSink.Took, SymbolSink.Takes, SymbolSink.Parameters, TaggedBits,
        TokensBits, HaveCodes, Apart, Counted, Usable, M.Sizes, Symbol, Tag;
      NowIs();
      ghost var ks := [Symbol(isDC, y)];
      if gather {
        if isDC {
          CountDc(ci, y);
        } else {
          CountAc(ci, y);
        }
        TakesAll(ci, ks);
        return true;
      }
      Means();
      Written(ci, ks);
      UsableMeans(ci);
      SymbolIs(isDC, y);
      if isDC {
        ok := M.EmitDc(w, tables[ci].dc, tables[ci].ac, y);
      } else {
        ok := M.EmitAc(w, tables[ci].dc, tables[ci].ac, y);
      }
      if ok {
        sent, total := sent + Tag(ci, ks), total + Tag(ci, ks);
        TookAll(Mark(old(sent), old(total), old(w.before)), ci, ks);
      }
    }

    /** emit_bits_e for bits that follow a symbol. */
    method EmitBits(ci: nat, v: int, n: nat)
      requires Valid() && ci < |dcTbl| && 0 < n <= 16
      modifies this, w, dcCounts, acCounts
      ensures Took(old(Now()), ci, [Extra(v, n)]) && Takes(ci, [Extra(v, n)])
    {
      hide BitWriter.Valid, SymbolSink.Valid, SymbolSink.Took, SymbolSink.Takes, SymbolSink.Parameters, TaggedBits,
        TokensBits, HaveCodes, Apart, Counted, Usable, M.Sizes, Symbol, Tag;
      NowIs();
      ghost var ks := [Extra(v, n)];
      Means();
      Table(ci);
      if gather {
        TakesAll(ci, ks);
        ExtraNotCounted(Snap(dcCounts), dcTbl, total, true, ci, v, n);
        ExtraNotCounted(Snap(acCounts), acTbl, total, false, ci, v, n);
      } else {
        Written(ci, ks);
        UsableMeans(ci);
        M.EmitExtra(w, tables[ci].dc, tables[ci].ac, v, n);
      }
      sent, total := sent + Tag(ci, ks), total + Tag(ci, ks);
      TookAll(Mark(old(sent), old(total), old(w.before)), ci, ks);
    }

    /** The symbol of a coefficient and its bits. */
    method EmitCoef(ci: nat, r: nat, x: int, nbits: nat) returns (ok: bool)
      requires Valid() && ci < |dcTbl| && r < 16 && 0 < nbits == Category(x) <= 15
      modifies this, w, dcCounts, acCounts
      ensures (ok <==> Takes(ci, Coef(r, x))) && (ok ==> Took(old(Now()), ci, Coef(r, x)))
    {
      hide *;
      CoefIs(r, x);
      ghost var was, sym, ext := Now(), [AcSymbol(16 * r + nbits)], [Extra(Complemented(x), nbits)];
      SymbolIs(false, 16 * r + nbits);
      TakesSplit(ci, sym, ext);
      ok := EmitSymbol(false, ci, 16 * r + nbits);
      if ok {
        TookMeans(was, ci, sym);
        ghost var mid := Now();
        EmitBits(ci, Complemented(x), nbits);
        TookMore(was, mid, ci, sym, ext);
      }
    }

    /** emit_buffered_bits: `n` bits of the buffer from `from` on. */
    method EmitBuffered(ci: nat, buffer: array<bit>, from: nat, n: nat)
      requires Valid() && ci < |dcTbl| && from + n <= buffer.Length
      modifies this, w, dcCounts, acCounts
      ensures Took(old(Now()), ci, BitTokens(old(buffer[from..from + n])))
      ensures Takes(ci, BitTokens(old(buffer[from..from + n])))
    {
      hide SymbolSink.Valid, SymbolSink.Took, SymbolSink.Takes, Extends;
      ghost var was, bits := Now(), buffer[from..from + n];
      TookNone(ci);
      TakesNone(ci);
      for i := 0 to n
        invariant Took(was, ci, BitTokens(bits[..i])) && Takes(ci, BitTokens(bits[..i]))
      {
        TookMeans(was, ci, BitTokens(bits[..i]));
        ghost var mid := Now();
        BitTokensSnoc(bits, i);
        TakesSplit(ci, BitTokens(bits[..i]), [Extra(bits[i], 1)]);
        EmitBits(ci, buffer[from + i], 1);
        TookMore(was, mid, ci, BitTokens(bits[..i]), [Extra(bits[i], 1)]);
      }
      assert bits[..n] == bits;
    }

    /** Flush the bits of the segment and write a restart marker, in an output pass. */
    method Restart(num: nat) returns (ghost code: seq<byte>)
      requires Valid() && num < 8
      modifies this, w
      ensures Valid() && sent == [] && total == old(total)
      ensures !gather ==> && IsSegment(code, TaggedBits(tables, old(sent)))
                          && w.before == old(w.before) + (Stuff(code) + [0xFF, 0xD0 + num])
    {
      hide *;
      Means();
      NoneTagged(tables);
      code := [];
      if !gather {
        code := w.EmitRestart(num);
        Regroup(old(w.before), Stuff(code), [0xFF, 0xD0 + num]);
      }
      sent := [];
      Again();
    }

    /** The last bits of the scan. */
    method Finish() returns (ghost code: seq<byte>)
      requires Valid()
      modifies w
      ensures total == old(total) && sent == old(sent)
      ensures !gather ==> IsSegment(code, TaggedBits(tables, old(sent))) && w.out == old(w.before) + Stuff(code)
      ensures gather ==> Counted(Snap(dcCounts), dcTbl, total, true) && Counted(Snap(acCounts), acTbl, total, false)
    {
      hide *;
      Means();
      code := [];
      if !gather {
        w.FlushBits();
        code := w.emitted;
      }
    }

    /** A block in sequential mode: encode_one_block, or htest_one_block. */
    method SequentialBlock(ci: nat, order: seq<nat>, block: Zigzag, last: int, se: nat) returns (ok: bool)
      requires Valid() && ci < |dcTbl| && IsOrder(order) && se < 64
      modifies this, w, dcCounts, acCounts
      ensures var x := InZigzag(order, block); var diff, c := x[0] - last, x[1..se + 1];
        && (ok <==> InRange(diff, c) && Takes(ci, BlockTokens(diff, c)))
        && (ok ==> Took(old(Now()), ci, BlockTokens(diff, c)))
    {
      hide BitWriter.Valid, SymbolSink.Valid, SymbolSink.Took, SymbolSink.Takes, SymbolSink.Parameters, TaggedBits,
        TokensBits, HaveCodes, Apart, Counted, Usable, M.Sizes, Tag, BlockTokens, InRange, InZigzag, IsOrder;
      NowIs();
      ghost var x := InZigzag(order, block);
      ghost var diff, c := x[0] - last, x[1..se + 1];
      ghost var ks := BlockTokens(diff, c);
      Means();
      Table(ci);
      if gather {
        TakesAll(ci, ks);
        ok := CountBlock(ci, order, block, last, se);
      } else {
        Written(ci, ks);
        UsableMeans(ci);
        ok := M.EncodeOneBlock(w, tables[ci].dc, tables[ci].ac, order, block, last, se);
        if ok {
          sent, total := sent + Tag(ci, ks), total + Tag(ci, ks);
          TookAll(Mark(old(sent), old(total), old(w.before)), ci, ks);
        }
      }
    }

    method CountBlock(ci: nat, order: seq<nat>, block: Zigzag, last: int, se: nat) returns (ok: bool)
      requires Valid() && ci < |dcTbl| && IsOrder(order) && se < 64 && gather
      modifies this, dcCounts, acCounts
      ensures var x := InZigzag(order, block); var diff, c := x[0] - last, x[1..se + 1];
        && (ok <==> InRange(diff, c)) && (ok ==> Took(old(Now()), ci, BlockTokens(diff, c)))
    {
      hide *;
      NowIs();
      Means();
      Table(ci);
      ghost var x := InZigzag(order, block);
      ghost var ks := BlockTokens(x[0] - last, x[1..se + 1]);
      ApartLengths(dcCounts, acCounts);
      ghost var wasDc, wasAc := Snap(dcCounts), Snap(acCounts);
      ok := HtestOneBlock(order, block, last, se, dcCounts[dcTbl[ci]], acCounts[acTbl[ci]]);
      if ok {
        ghost var nowDc, nowAc := dcCounts[dcTbl[ci]][..], acCounts[acTbl[ci]][..];
        assert Snap(dcCounts) == wasDc[dcTbl[ci] := nowDc] && Snap(acCounts) == wasAc[acTbl[ci] := nowAc];
        BothMean(wasDc[dcTbl[ci]], nowDc, wasAc[acTbl[ci]], nowAc, ks);
        CountedMore(wasDc, dcTbl, total, true, ci, ks, nowDc);
        CountedMore(wasAc, acTbl, total, false, ci, ks, nowAc);
        sent, total := sent + Tag(ci, ks), total + Tag(ci, ks);
        TookAll(Mark(old(sent), old(total), old(w.before)), ci, ks);
      }
    }
  }

  lemma BothMean(dcWas: seq<nat>, dcNow: seq<nat>, acWas: seq<nat>, acNow: seq<nat>, ks: seq<Token>)
    requires BothTallied(dcWas, dcNow, acWas, acNow, ks)
    ensures Tallied(dcWas, dcNow, ks, true) && Tallied(acWas, acNow, ks, false)
  {
  }

  lemma BitTokensSnoc(bits: seq<bit>, i: nat)
    requires i < |bits|
    ensures BitTokens(bits[..i + 1]) == BitTokens(bits[..i]) + [Extra(bits[i], 1)]
  {
  }

  lemma ApartLengths(a: seq<array<nat>>, b: seq<array<nat>>)
    requires Apart(a, b)
    ensures forall i :: 0 <= i < |a| ==> a[i].Length == T.SYMBOLS
    ensures forall i :: 0 <= i < |b| ==> b[i].Length == T.SYMBOLS
    ensures forall i, j :: 0 <= i < j < |a| ==> a[i] != a[j]
    ensures forall i, j :: 0 <= i < j < |b| ==> b[i] != b[j]
    ensures forall i, j :: 0 <= i < |a| && 0 <= j < |b| ==> a[i] != b[j]
  {
  }

  lemma CoefIs(r: nat, x: int)
    ensures Coef(r, x) == [AcSymbol(16 * r + Category(x))] + [Extra(Complemented(x), Category(x))]
  {
  }

  lemma NoneTagged(ts: seq<CompTables>)
    ensures TaggedBits(ts, []) == [] && HaveAll(ts, [])
  {
  }

  lemma SymbolIs(isDC: bool, y: nat)
    ensures Symbol(true, y) == DcSymbol(y) && Symbol(false, y) == AcSymbol(y)
  {
  }

  lemma ApartSwap(a: seq<array<nat>>, b: seq<array<nat>>)
    requires Apart(a, b)
    ensures Apart(b, a)
  {
  }

  /** Tokens of another kind change no counter. */
  lemma CountedOther(counts: seq<seq<nat>>, tbls: seq<nat>, total: seq<Tagged>, isDC: bool, ci: nat, y: nat)
    requires Counted(counts, tbls, total, !isDC) && ci < |tbls| && tbls[ci] < NUM_HUFF_TBLS
    ensures Counted(counts, tbls, total + Tag(ci, [Symbol(isDC, y)]), !isDC)
  {
    var ks, now := [Symbol(isDC, y)], counts[tbls[ci]];
    assert CountedIn(now, tbls, total, !isDC, tbls[ci]);
    assert multiset(ks) == multiset{Symbol(isDC, y)};
    CountedMore(counts, tbls, total, !isDC, ci, ks, now);
    assert counts[tbls[ci] := now] == counts;
  }

  lemma ExtraNotCounted(counts: seq<seq<nat>>, tbls: seq<nat>, total: seq<Tagged>, isDC: bool, ci: nat, v: int, n: nat)
    requires Counted(counts, tbls, total, isDC) && ci < |tbls| && tbls[ci] < NUM_HUFF_TBLS
    ensures Counted(counts, tbls, total + Tag(ci, [Extra(v, n)]), isDC)
  {
    var ks, now := [Extra(v, n)], counts[tbls[ci]];
    assert CountedIn(now, tbls, total, isDC, tbls[ci]);
    assert multiset(ks) == multiset{Extra(v, n)};
    CountedMore(counts, tbls, total, isDC, ci, ks, now);
    assert counts[tbls[ci] := now] == counts;
  }

  /** Count one symbol. */
  method Bump(counts: seq<array<nat>>, others: seq<array<nat>>, t: nat, y: nat, ghost tbls: seq<nat>,
              ghost total: seq<Tagged>, ghost isDC: bool, ghost ci: nat)
    requires |counts| == NUM_HUFF_TBLS && Apart(counts, others) && t < NUM_HUFF_TBLS && y < 256
    requires ci < |tbls| && tbls[ci] == t && Counted(Snap(counts), tbls, total, isDC)
    modifies counts
    ensures Counted(Snap(counts), tbls, total + Tag(ci, [Symbol(isDC, y)]), isDC)
    ensures Snap(others) == old(Snap(others))
  {
    hide Counted;
    ghost var was, other := Snap(counts), Snap(others);
    counts[t][y] := counts[t][y] + 1;
    assert Snap(counts) == was[t := counts[t][..]] && Snap(others) == other;
    TallyOne(was[t], counts[t][..], y, isDC);
    CountedMore(was, tbls, total, isDC, ci, [Symbol(isDC, y)], counts[t][..]);
  }

  lemma TallyOne(was: seq<nat>, now: seq<nat>, y: nat, isDC: bool)
    requires |was| == |now| == T.SYMBOLS && y < 256 && now == was[y := was[y] + 1]
    ensures Tallied(was, now, [Symbol(isDC, y)], isDC)
  {
    assert multiset([Symbol(isDC, y)]) == multiset{Symbol(isDC, y)};
  }

  /** Tables with codes of at most sixteen bits. */
  predicate Usable(c: CompTables)
  {
    Shaped(c) && M.Sizes(c.dc, c.ac)
  }
}
