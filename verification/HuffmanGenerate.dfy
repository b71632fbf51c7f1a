/** The end of a pass that gathers statistics (finish_pass_gather in jchuff.c) and the start
    of the output pass: tables are generated from the counts and derived for use. */
module HuffmanGenerating {
  import opened Bytes
  import opened BitStreams
  import opened Coefficients
  import opened RestartGroups
  import opened HuffmanCode
  import opened HuffmanTables
  import T = HuffmanTree
  import opened HuffmanOptimal
  import L = HuffmanLengths
  import opened HuffmanBlock
  import opened HuffmanScan
  import opened HuffmanSink
  import opened HuffmanStats
  import opened HuffmanScanEncoding
  import opened HuffmanGather
  import opened ProgressiveTokens
  import M = HuffmanMcuEncoding

  // ------------------------------------------------ what the counts can be

  /** Counts that table generation can deal with. */
  ghost predicate Countable(f: seq<nat>)
  {
    |f| == 256 && T.LastMerged(f + [1]) <= T.MAX_COUNT && 0 < T.Roots(f) <= 254
  }

  /** The table lists the counted symbols, and is legal. */
  ghost predicate TableFor(f: seq<nat>, t: Table)
    requires |f| == 256
  {
    WellFormed(t) && Bytewise(t) && IsTableOf(f, t.bits, t.vals)
  }

  lemma {:induction false} RootsBelow(f: seq<nat>, n: nat)
    requires n <= |f| && forall y :: n <= y < |f| ==> f[y] == 0
    ensures T.Roots(f) <= n
    decreases |f|
  {
    if f != [] {
      RootsBelow(f[1..], if n == 0 then 0 else n - 1);
    }
  }

  lemma {:induction false} RootsAny(f: seq<nat>, y: nat)
    requires y < |f| && f[y] != 0
    ensures T.Roots(f) > 0
    decreases |f|
  {
    if y != 0 {
      RootsAny(f[1..], y - 1);
    }
  }

  /** The tokens have a symbol of the kind for a component that uses table `t`. */
  ghost predicate Uses(total: seq<Tagged>, tbls: seq<nat>, t: nat, isDC: bool)
  {
    exists i :: 0 <= i < |total| && OfTable(total[i], tbls, t, isDC)
  }

  predicate OfTable(k: Tagged, tbls: seq<nat>, t: nat, isDC: bool)
  {
    k.ci < |tbls| && tbls[k.ci] == t && (if isDC then k.k.DcSymbol? else k.k.AcSymbol?)
  }

  lemma {:induction false} NoneOccurs(total: seq<Tagged>, tbls: seq<nat>, t: nat, k: Token)
    requires forall i :: 0 <= i < |total| ==> total[i].k != k
    ensures Occurs(total, tbls, t, k) == 0
    decreases |total|
  {
    if total != [] {
      NoneOccurs(total[1..], tbls, t, k);
    }
  }

  /** The counts of a scan's tokens are never more than 254 different symbols. */
  lemma FewSymbols(s: Scan, counts: seq<seq<nat>>, tbls: seq<nat>, total: seq<Tagged>, isDC: bool, t: nat)
    requires Counted(counts, tbls, total, isDC) && TaggedFit(s, total) && t < NUM_HUFF_TBLS
    ensures |counts[t]| == 257 && T.Roots(counts[t][..256]) <= 254
    ensures forall y :: 0 <= y < 256 && isDC && y > 15 ==> counts[t][y] == 0
  {
    hide Occurs;
    assert CountedIn(counts[t], tbls, total, isDC, t);
    forall y | 0 <= y < 256 && (y >= 254 || (isDC && y > 15))
      ensures counts[t][y] == 0
    {
      assert forall i :: 0 <= i < |total| ==> TokenFits(s, total[i].k);
      NoneOccurs(total, tbls, t, Symbol(isDC, y));
    }
    RootsBelow(counts[t][..256], 254);
  }

  lemma SomeSymbol(s: Scan, counts: seq<seq<nat>>, tbls: seq<nat>, total: seq<Tagged>, isDC: bool, t: nat)
    requires Counted(counts, tbls, total, isDC) && TaggedFit(s, total) && t < NUM_HUFF_TBLS
             && Uses(total, tbls, t, isDC)
    ensures |counts[t]| == 257 && T.Roots(counts[t][..256]) > 0
  {
    hide Occurs;
    assert CountedIn(counts[t], tbls, total, isDC, t);
    var i :| 0 <= i < |total| && OfTable(total[i], tbls, t, isDC);
    OccursOnce(total, tbls, i);
    assert TokenFits(s, total[i].k);
    match total[i].k
    case DcSymbol(y) => RootsAny(counts[t][..256], y);
    case AcSymbol(y) => RootsAny(counts[t][..256], y);
  }

  // --------------------------------------------------- finish_pass_gather

  /** jpeg_gen_optimal_table into a new table. */
  method GenerateOne(freq: array<nat>) returns (ok: bool, t: Table)
    requires freq.Length == T.SYMBOLS && Countable(freq[..256])
    modifies freq
    ensures ok <==> CodesFit(old(freq[..256]))
    ensures ok ==> TableFor(old(freq[..256]), t)
  {
    hide Legal, ListsSymbols, Upto, CodesFit, Count, T.HuffmanSizes, T.Roots, T.Total;
    var bits, huffval := new byte[17], new byte[256];
    var r := GenOptimalTable(freq, bits, huffval);
    ok := r == Made;
    t := Table(bits[..], huffval[..]);
  }

  /** The table of the counts is generated. */
  ghost predicate Done(f: seq<nat>, t: Table)
    requires |f| == 256
  {
    CodesFit(f) && TableFor(f, t)
  }

  /** Table numbers whose table is generated so far, and those still to come. */
  ghost predicate Progress(start: seq<seq<nat>>, now: seq<seq<nat>>, did: seq<bool>, huff: seq<Table>)
  {
    && |start| == |now| == |did| == |huff| == NUM_HUFF_TBLS
    && forall t :: 0 <= t < NUM_HUFF_TBLS ==>
         |start[t]| == |now[t]| == 257 && (if did[t] then Done(start[t][..256], huff[t]) else now[t] == start[t])
  }

  lemma ProgressStep(start: seq<seq<nat>>, was: seq<seq<nat>>, now: seq<seq<nat>>, did: seq<bool>, huff: seq<Table>,
                     tbl: nat, t: Table)
    requires Progress(start, was, did, huff) && tbl < NUM_HUFF_TBLS && |now| == NUM_HUFF_TBLS && |now[tbl]| == 257
    requires forall k :: 0 <= k < NUM_HUFF_TBLS && k != tbl ==> now[k] == was[k]
    requires Done(start[tbl][..256], t)
    ensures Progress(start, now, did[tbl := true], huff[tbl := t])
  {
    hide Done;
  }

  lemma ProgressAt(start: seq<seq<nat>>, now: seq<seq<nat>>, did: seq<bool>, huff: seq<Table>)
    requires Progress(start, now, did, huff)
    ensures |start| == |now| == |did| == |huff| == NUM_HUFF_TBLS
    ensures forall t :: 0 <= t < NUM_HUFF_TBLS ==> |start[t]| == 257
    ensures forall t :: 0 <= t < NUM_HUFF_TBLS ==> if did[t] then Done(start[t][..256], huff[t]) else now[t] == start[t]
  {
    hide Done;
  }

  /** Generate table `tbl` unless that has been done: generation destroys the counts. */
  method GenerateOnce(counts: seq<array<nat>>, tbl: nat, did: seq<bool>, huff: seq<Table>, ghost start: seq<seq<nat>>)
    returns (ok: bool, done: seq<bool>, tables: seq<Table>)
    requires |counts| == NUM_HUFF_TBLS && forall i, j :: 0 <= i < j < |counts| ==> counts[i] != counts[j]
    requires forall t :: 0 <= t < |counts| ==> counts[t].Length == T.SYMBOLS
    requires Progress(start, Snap(counts), did, huff) && tbl < NUM_HUFF_TBLS && Countable(start[tbl][..256])
    modifies counts
    ensures ok <==> CodesFit(start[tbl][..256])
    ensures ok ==> Progress(start, Snap(counts), done, tables) && done == did[tbl := true]
  {
    hide TableFor, CodesFit, Countable, Progress, Snap;
    ProgressAt(start, Snap(counts), did, huff);
    done, tables, ok := did, huff, true;
    if !did[tbl] {
      ghost var was := Snap(counts);
      assert was[tbl] == counts[tbl][..];
      assert counts[tbl][..256] == start[tbl][..256];
      var t;
      ok, t := GenerateOne(counts[tbl]);
      done, tables := did[tbl := true], huff[tbl := t];
      if ok {
        ProgressStep(start, was, Snap(counts), did, huff, tbl, t);
      }
    }
  }

  /** What each component of a scan needs of the counts. */
  ghost predicate CountsReady(s: Scan, dcTbl: seq<nat>, acTbl: seq<nat>, dc: seq<seq<nat>>, ac: seq<seq<nat>>)
  {
    && |dcTbl| == |acTbl| == s.comps && |dc| == |ac| == NUM_HUFF_TBLS
    && (forall t :: 0 <= t < NUM_HUFF_TBLS ==> |dc[t]| == |ac[t]| == 257)
    && forall ci :: 0 <= ci < s.comps ==>
         && dcTbl[ci] < NUM_HUFF_TBLS && acTbl[ci] < NUM_HUFF_TBLS
         && (UsesDc(s.mode) ==> Countable(dc[dcTbl[ci]][..256]))
         && (UsesAc(s) ==> Countable(ac[acTbl[ci]][..256]))
  }

  /** Each of the first `n` components has the tables it needs. */
  ghost predicate Tabled(s: Scan, dcTbl: seq<nat>, acTbl: seq<nat>, dc: seq<seq<nat>>, ac: seq<seq<nat>>,
                         dcHuff: seq<Table>, acHuff: seq<Table>, n: nat)
    requires CountsReady(s, dcTbl, acTbl, dc, ac) && |dcHuff| == |acHuff| == NUM_HUFF_TBLS && n <= s.comps
  {
    forall ci :: 0 <= ci < n ==>
      && (UsesDc(s.mode) ==> TableFor(dc[dcTbl[ci]][..256], dcHuff[dcTbl[ci]]))
      && (UsesAc(s) ==> TableFor(ac[acTbl[ci]][..256], acHuff[acTbl[ci]]))
  }

  lemma ProgressNone(start: seq<seq<nat>>, huff: seq<Table>)
    requires |start| == |huff| == NUM_HUFF_TBLS && forall t :: 0 <= t < NUM_HUFF_TBLS ==> |start[t]| == 257
    ensures Progress(start, start, seq(NUM_HUFF_TBLS, i => false), huff)
  {
  }

  /** The table of one kind for a component; the counts of the other kind stay. */
  method GenerateFor(needed: bool, counts: seq<array<nat>>, tbl: nat, did: seq<bool>, huff: seq<Table>,
                     ghost start: seq<seq<nat>>, ghost others: seq<array<nat>>)
    returns (ok: bool, done: seq<bool>, tables: seq<Table>)
    requires |counts| == NUM_HUFF_TBLS && (Apart(counts, others) || Apart(others, counts))
    requires Progress(start, Snap(counts), did, huff)
    requires needed ==> tbl < NUM_HUFF_TBLS && Countable(start[tbl][..256])
    modifies counts
    ensures Snap(others) == old(Snap(others))
    ensures |tables| == NUM_HUFF_TBLS && (ok <==> !needed || CodesFit(start[tbl][..256]))
    ensures ok ==> Progress(start, Snap(counts), done, tables)
    ensures ok ==> |done| == |did| && (forall t :: 0 <= t < |did| && did[t] ==> done[t]) && (needed ==> done[tbl])
  {
    hide Done, CodesFit, Countable, Progress;
    ProgressAt(start, Snap(counts), did, huff);
    ok, done, tables := true, did, huff;
    if needed {
      ok, done, tables := GenerateOnce(counts, tbl, did, huff, start);
    }
    if ok {
      ProgressAt(start, Snap(counts), done, tables);
    } else {
      tables := huff;
    }
    forall i | 0 <= i < |others|
      ensures others[i][..] == old(others[i][..])
    {
    }
    assert Snap(others) == old(Snap(others));
  }

  /** The tables of the first `n` components are done. */
  predicate DoneTo(s: Scan, dcTbl: seq<nat>, acTbl: seq<nat>, didDc: seq<bool>, didAc: seq<bool>, n: nat)
  {
    && |dcTbl| == |acTbl| == s.comps && n <= s.comps
    && forall i :: 0 <= i < n ==>
         && (UsesDc(s.mode) ==> dcTbl[i] < |didDc| && didDc[dcTbl[i]])
         && (UsesAc(s) ==> acTbl[i] < |didAc| && didAc[acTbl[i]])
  }

  lemma DoneMore(s: Scan, dcTbl: seq<nat>, acTbl: seq<nat>, didDc: seq<bool>, didAc: seq<bool>, n: nat,
                 nowDc: seq<bool>, nowAc: seq<bool>)
    requires DoneTo(s, dcTbl, acTbl, didDc, didAc, n) && n < s.comps && |nowDc| == |didDc| && |nowAc| == |didAc|
    requires forall t :: 0 <= t < |didDc| && didDc[t] ==> nowDc[t]
    requires forall t :: 0 <= t < |didAc| && didAc[t] ==> nowAc[t]
    requires UsesDc(s.mode) ==> dcTbl[n] < |nowDc| && nowDc[dcTbl[n]]
    requires UsesAc(s) ==> acTbl[n] < |nowAc| && nowAc[acTbl[n]]
    ensures DoneTo(s, dcTbl, acTbl, nowDc, nowAc, n + 1)
  {
  }

  lemma AllTabled(s: Scan, dcTbl: seq<nat>, acTbl: seq<nat>, dc: seq<seq<nat>>, ac: seq<seq<nat>>,
                  dcNow: seq<seq<nat>>, acNow: seq<seq<nat>>, didDc: seq<bool>, didAc: seq<bool>,
                  dcHuff: seq<Table>, acHuff: seq<Table>)
    requires CountsReady(s, dcTbl, acTbl, dc, ac) && DoneTo(s, dcTbl, acTbl, didDc, didAc, s.comps)
    requires Progress(dc, dcNow, didDc, dcHuff) && Progress(ac, acNow, didAc, acHuff)
    ensures |dcHuff| == |acHuff| == NUM_HUFF_TBLS && Tabled(s, dcTbl, acTbl, dc, ac, dcHuff, acHuff, s.comps)
  {
    hide TableFor, CodesFit, Countable;
  }

  /** No unlimited code of the tables that component `ci` uses exceeds 32 bits. */
  ghost predicate CodesFitAt(s: Scan, dcTbl: seq<nat>, acTbl: seq<nat>, dc: seq<seq<nat>>, ac: seq<seq<nat>>, ci: nat)
    requires CountsReady(s, dcTbl, acTbl, dc, ac) && ci < s.comps
  {
    && (UsesDc(s.mode) ==> CodesFit(dc[dcTbl[ci]][..256]))
    && (UsesAc(s) ==> CodesFit(ac[acTbl[ci]][..256]))
  }

  /** Nor of those that any of the first `n` components uses. */
  ghost predicate AllCodesFit(s: Scan, dcTbl: seq<nat>, acTbl: seq<nat>, dc: seq<seq<nat>>, ac: seq<seq<nat>>, n: nat)
    requires CountsReady(s, dcTbl, acTbl, dc, ac) && n <= s.comps
  {
    forall ci :: 0 <= ci < n ==> CodesFitAt(s, dcTbl, acTbl, dc, ac, ci)
  }

  lemma FitsMore(s: Scan, dcTbl: seq<nat>, acTbl: seq<nat>, dc: seq<seq<nat>>, ac: seq<seq<nat>>, n: nat)
    requires CountsReady(s, dcTbl, acTbl, dc, ac) && n < s.comps && AllCodesFit(s, dcTbl, acTbl, dc, ac, n)
    ensures dcTbl[n] < |dc| && |dc[dcTbl[n]]| == 257 && acTbl[n] < |ac| && |ac[acTbl[n]]| == 257
    ensures var fits := && (UsesDc(s.mode) ==> CodesFit(dc[dcTbl[n]][..256]))
                        && (UsesAc(s) ==> CodesFit(ac[acTbl[n]][..256]));
      && (fits ==> AllCodesFit(s, dcTbl, acTbl, dc, ac, n + 1))
      && (!fits ==> !AllCodesFit(s, dcTbl, acTbl, dc, ac, s.comps))
  {
    hide CodesFit, Countable;
    assert CodesFitAt(s, dcTbl, acTbl, dc, ac, n) <==>
      && (UsesDc(s.mode) ==> CodesFit(dc[dcTbl[n]][..256]))
      && (UsesAc(s) ==> CodesFit(ac[acTbl[n]][..256]));
    hide CodesFitAt;
  }

  lemma FitsNone(s: Scan, dcTbl: seq<nat>, acTbl: seq<nat>, dc: seq<seq<nat>>, ac: seq<seq<nat>>)
    requires CountsReady(s, dcTbl, acTbl, dc, ac)
    ensures AllCodesFit(s, dcTbl, acTbl, dc, ac, 0)
  {
  }

  lemma ReadyAt(s: Scan, dcTbl: seq<nat>, acTbl: seq<nat>, dc: seq<seq<nat>>, ac: seq<seq<nat>>)
    requires CountsReady(s, dcTbl, acTbl, dc, ac)
    ensures |dcTbl| == |acTbl| == s.comps && |dc| == |ac| == NUM_HUFF_TBLS
    ensures forall t :: 0 <= t < NUM_HUFF_TBLS ==> |dc[t]| == |ac[t]| == 257
    ensures forall ci :: 0 <= ci < s.comps ==> dcTbl[ci] < NUM_HUFF_TBLS && acTbl[ci] < NUM_HUFF_TBLS
    ensures forall ci :: 0 <= ci < s.comps && UsesDc(s.mode) ==> Countable(dc[dcTbl[ci]][..256])
    ensures forall ci :: 0 <= ci < s.comps && UsesAc(s) ==> Countable(ac[acTbl[ci]][..256])
  {
  }

  /** finish_pass_gather: a table for each table number the scan's components use.  It fails
      exactly when a code of an unlimited Huffman code is longer than 32 bits. */
  method GenerateTables(s: Scan, dcTbl: seq<nat>, acTbl: seq<nat>, dcCounts: seq<array<nat>>, acCounts: seq<array<nat>>,
                        dcOld: seq<Table>, acOld: seq<Table>)
    returns (ok: bool, dcHuff: seq<Table>, acHuff: seq<Table>)
    requires |dcCounts| == |acCounts| == |dcOld| == |acOld| == NUM_HUFF_TBLS && Apart(dcCounts, acCounts)
    requires CountsReady(s, dcTbl, acTbl, Snap(dcCounts), Snap(acCounts))
    modifies dcCounts, acCounts
    ensures |dcHuff| == |acHuff| == NUM_HUFF_TBLS
    ensures ok <==> AllCodesFit(s, dcTbl, acTbl, old(Snap(dcCounts)), old(Snap(acCounts)), s.comps)
    ensures ok ==> Tabled(s, dcTbl, acTbl, old(Snap(dcCounts)), old(Snap(acCounts)), dcHuff, acHuff, s.comps)
  {
    hide TableFor, CodesFit, Countable, Progress, Apart, Snap, CountsReady, Tabled, AllCodesFit, DoneTo, UsesDc, UsesAc;
    ghost var dc, ac := Snap(dcCounts), Snap(acCounts);
    ReadyAt(s, dcTbl, acTbl, dc, ac);
    var none := seq(NUM_HUFF_TBLS, i => false);
    var didDc, didAc := none, none;
    dcHuff, acHuff := dcOld, acOld;
    ProgressNone(dc, dcHuff);
    ProgressNone(ac, acHuff);
    NoneDone(s, dcTbl, acTbl, didDc, didAc);
    FitsNone(s, dcTbl, acTbl, dc, ac);
    for ci := 0 to s.comps
      invariant |didDc| == |didAc| == |dcHuff| == |acHuff| == NUM_HUFF_TBLS
      invariant Progress(dc, Snap(dcCounts), didDc, dcHuff) && Progress(ac, Snap(acCounts), didAc, acHuff)
      invariant DoneTo(s, dcTbl, acTbl, didDc, didAc, ci) && AllCodesFit(s, dcTbl, acTbl, dc, ac, ci)
    {
      FitsMore(s, dcTbl, acTbl, dc, ac, ci);
      var nowDc, nowAc;
      ok, nowDc, dcHuff := GenerateFor(UsesDc(s.mode), dcCounts, dcTbl[ci], didDc, dcHuff, dc, acCounts);
      if !ok {
        return;
      }
      ok, nowAc, acHuff := GenerateFor(UsesAc(s), acCounts, acTbl[ci], didAc, acHuff, ac, dcCounts);
      if !ok {
        return;
      }
      DoneMore(s, dcTbl, acTbl, didDc, didAc, ci, nowDc, nowAc);
      didDc, didAc := nowDc, nowAc;
    }
    ok := true;
    AllTabled(s, dcTbl, acTbl, dc, ac, Snap(dcCounts), Snap(acCounts), didDc, didAc, dcHuff, acHuff);
  }

  lemma NoneDone(s: Scan, dcTbl: seq<nat>, acTbl: seq<nat>, didDc: seq<bool>, didAc: seq<bool>)
    requires |dcTbl| == |acTbl| == s.comps
    ensures DoneTo(s, dcTbl, acTbl, didDc, didAc, 0)
  {
  }

  // ------------------------------------------- start_pass of the output pass

  const NO_TABLE: Table := Table(seq(17, i => 0), seq(256, i => 0))
  const NO_CODES: CTable := CTable(seq(256, i => 0), seq(256, i => 0))

  /** The tables of component `ci` can be derived. */
  ghost predicate Derivable(s: Scan, dcTable: Table, acTable: Table)
  {
    && (UsesDc(s.mode) ==> WellFormed(dcTable) && Legal(dcTable, 15))
    && (UsesAc(s) ==> WellFormed(acTable) && Legal(acTable, 255))
  }

  /** Tables derived for a component. */
  ghost predicate Derived(s: Scan, dcTable: Table, acTable: Table, c: CompTables)
  {
    && EncodableAt(s, c) && ReadiedAt(s, c) && M.Sizes(c.dc, c.ac)
    && (UsesDc(s.mode) ==> c.dcTable == dcTable) && (UsesAc(s) ==> c.acTable == acTable)
  }

  lemma ShortCodes(t: Table, c: CTable)
    requires WellFormed(t) && Legal(t, 255) && EncodesTable(t, c)
    ensures |c.ehufco| == |c.ehufsi| == 256 && forall y :: 0 <= y < 256 ==> c.ehufsi[y] <= 16
  {
    forall y | 0 <= y < 256
      ensures c.ehufsi[y] <= 16
    {
      if y in t.vals[..Upto(t.bits, 16)] {
        var p :| 0 <= p < Upto(t.bits, 16) && t.vals[p] == y;
        assert c.ehufsi[t.vals[p]] == LenOf(t.bits, p, 16);
      }
    }
  }

  lemma LegalMore(t: Table)
    requires WellFormed(t) && Legal(t, 15)
    ensures Legal(t, 255)
  {
  }

  method DeriveOne(needed: bool, isDC: bool, t: Table) returns (ok: bool, own: Table, c: CTable)
    requires needed ==> WellFormed(t) && Bytewise(t)
    ensures ok <==> !needed || Legal(t, if isDC then 15 else 255)
    ensures ok ==>
              && WellFormed(own) && Bytewise(own) && |c.ehufco| == |c.ehufsi| == 256
              && forall y :: 0 <= y < 256 ==> c.ehufsi[y] <= 16
    ensures ok && needed ==> own == t && Matching(t, c) && Legal(t, if isDC then 15 else 255)
  {
    hide Legal, EncodesTable;
    ok, own, c := true, NO_TABLE, NO_CODES;
    if needed {
      own := t;
      ok, c := MakeCDerived(t, isDC);
      if ok {
        if isDC {
          LegalMore(t);
        }
        ShortCodes(t, c);
      }
    }
  }

  /** Derived tables of all components; refused exactly when one of them is not legal. */
  method DeriveTables(s: Scan, dcTbl: seq<nat>, acTbl: seq<nat>, dcHuff: seq<Table>, acHuff: seq<Table>)
    returns (ok: bool, ts: seq<CompTables>)
    requires |dcTbl| == |acTbl| == s.comps && |dcHuff| == |acHuff| == NUM_HUFF_TBLS
    requires forall ci :: 0 <= ci < s.comps ==> dcTbl[ci] < NUM_HUFF_TBLS && acTbl[ci] < NUM_HUFF_TBLS
    requires forall ci :: 0 <= ci < s.comps ==>
               && (UsesDc(s.mode) ==> WellFormed(dcHuff[dcTbl[ci]]) && Bytewise(dcHuff[dcTbl[ci]]))
               && (UsesAc(s) ==> WellFormed(acHuff[acTbl[ci]]) && Bytewise(acHuff[acTbl[ci]]))
    ensures ok <==> forall ci :: 0 <= ci < s.comps ==> Derivable(s, dcHuff[dcTbl[ci]], acHuff[acTbl[ci]])
    ensures ok ==> |ts| == s.comps
    ensures ok ==> forall ci :: 0 <= ci < s.comps ==> Derived(s, dcHuff[dcTbl[ci]], acHuff[acTbl[ci]], ts[ci])
  {
    hide Legal, Matching;
    ts := [];
    for ci := 0 to s.comps
      invariant |ts| == ci
      invariant forall i :: 0 <= i < ci ==> Derivable(s, dcHuff[dcTbl[i]], acHuff[acTbl[i]])
      invariant forall i :: 0 <= i < ci ==> Derived(s, dcHuff[dcTbl[i]], acHuff[acTbl[i]], ts[i])
    {
      var dcTable, dc, acTable, ac;
      ok, dcTable, dc := DeriveOne(UsesDc(s.mode), true, dcHuff[dcTbl[ci]]);
      if !ok {
        assert !Derivable(s, dcHuff[dcTbl[ci]], acHuff[acTbl[ci]]);
        return;
      }
      ok, acTable, ac := DeriveOne(UsesAc(s), false, acHuff[acTbl[ci]]);
      if !ok {
        assert !Derivable(s, dcHuff[dcTbl[ci]], acHuff[acTbl[ci]]);
        return;
      }
      ts := ts + [CompTables(dcTable, dc, acTable, ac)];
    }
    ok := true;
  }

  // ------------------------------------------------------- both, for one scan

  lemma DcLegal(f: seq<nat>, t: Table)
    requires |f| == 256 && TableFor(f, t) && forall y :: 15 < y < 256 ==> f[y] == 0
    ensures WellFormed(t) && Legal(t, 15)
  {
    hide Next, Upto, T.Roots, T.HuffmanSizes;
  }

  lemma TableLegal(f: seq<nat>, t: Table)
    requires |f| == 256 && TableFor(f, t)
    ensures WellFormed(t) && Legal(t, 255)
  {
    hide Legal;
  }

  lemma GeneratedIs(f: seq<nat>, t: Table, c: CTable)
    requires |f| == 256 && TableFor(f, t) && Matching(t, c)
    ensures GeneratedFor(f, t, c)
  {
  }

  /** Tables generated from the counts of a scan can be derived. */
  lemma TabledDerivable(s: Scan, dcTbl: seq<nat>, acTbl: seq<nat>, dc: seq<seq<nat>>, ac: seq<seq<nat>>,
                        dcHuff: seq<Table>, acHuff: seq<Table>, total: seq<Tagged>)
    requires CountsReady(s, dcTbl, acTbl, dc, ac) && |dcHuff| == |acHuff| == NUM_HUFF_TBLS
    requires Tabled(s, dcTbl, acTbl, dc, ac, dcHuff, acHuff, s.comps)
    requires Counted(dc, dcTbl, total, true) && TaggedFit(s, total)
    ensures forall ci :: 0 <= ci < s.comps ==> Derivable(s, dcHuff[dcTbl[ci]], acHuff[acTbl[ci]])
  {
    hide Legal, Counted, TaggedFit, Countable, TableFor;
    forall ci | 0 <= ci < s.comps
      ensures Derivable(s, dcHuff[dcTbl[ci]], acHuff[acTbl[ci]])
    {
      if UsesDc(s.mode) {
        FewSymbols(s, dc, dcTbl, total, true, dcTbl[ci]);
        DcLegal(dc[dcTbl[ci]][..256], dcHuff[dcTbl[ci]]);
      }
      if UsesAc(s) {
        TableLegal(ac[acTbl[ci]][..256], acHuff[acTbl[ci]]);
      }
    }
  }

  lemma DerivedGenerated(s: Scan, dcTbl: seq<nat>, acTbl: seq<nat>, dc: seq<seq<nat>>, ac: seq<seq<nat>>,
                         dcHuff: seq<Table>, acHuff: seq<Table>, ts: seq<CompTables>)
    requires CountsReady(s, dcTbl, acTbl, dc, ac) && |dcHuff| == |acHuff| == NUM_HUFF_TBLS && |ts| == s.comps
    requires Tabled(s, dcTbl, acTbl, dc, ac, dcHuff, acHuff, s.comps)
    requires forall ci :: 0 <= ci < s.comps ==> Derived(s, dcHuff[dcTbl[ci]], acHuff[acTbl[ci]], ts[ci])
    ensures Generated(s, ts, dc, ac, dcTbl, acTbl) && Encodable(s, ts) && Readied(s, ts)
    ensures forall ci :: 0 <= ci < |ts| ==> Usable(ts[ci])
  {
    hide Matching, Countable, TableFor, GeneratedFor;
    forall ci | 0 <= ci < s.comps
      ensures EncodableAt(s, ts[ci]) && ReadiedAt(s, ts[ci]) && Usable(ts[ci])
      ensures UsesDc(s.mode) ==> GeneratedFor(dc[dcTbl[ci]][..256], ts[ci].dcTable, ts[ci].dc)
      ensures UsesAc(s) ==> GeneratedFor(ac[acTbl[ci]][..256], ts[ci].acTable, ts[ci].ac)
    {
      assert Derived(s, dcHuff[dcTbl[ci]], acHuff[acTbl[ci]], ts[ci]);
      if UsesDc(s.mode) {
        GeneratedIs(dc[dcTbl[ci]][..256], ts[ci].dcTable, ts[ci].dc);
      }
      if UsesAc(s) {
        GeneratedIs(ac[acTbl[ci]][..256], ts[ci].acTable, ts[ci].ac);
      }
    }
  }

  // ---------------------------------------------- what a scan's tokens contain

  /** No more symbols are counted than there are tokens. */
  lemma {:induction false} CountsTotal(total: seq<Tagged>, tbls: seq<nat>, t: nat, isDC: bool, f: seq<nat>)
    requires |f| == 256 && forall y :: 0 <= y < 256 ==> f[y] == Occurs(total, tbls, t, Symbol(isDC, y))
    ensures T.Total(f) <= |total|
    decreases |total|
  {
    hide T.Total;
    if total == [] {
      TotalNone(f);
    } else {
      var k := total[0];
      var g := seq(256, y requires 0 <= y < 256 => Occurs(total[1..], tbls, t, Symbol(isDC, y)));
      CountsTotal(total[1..], tbls, t, isDC, g);
      if k.ci < |tbls| && tbls[k.ci] == t && !k.k.Extra? && Symbol(isDC, k.k.sym) == k.k && k.k.sym < 256 {
        T.TotalUpdate(g, k.k.sym, g[k.k.sym] + 1);
        assert f == g[k.k.sym := g[k.k.sym] + 1];
      } else {
        assert f == g;
      }
    }
  }

  lemma {:induction false} TotalNone(f: seq<nat>)
    requires forall y :: 0 <= y < |f| ==> f[y] == 0
    ensures T.Total(f) == 0
  {
    if f != [] {
      TotalNone(f[1..]);
    }
  }

  /** How often each symbol is sent with a table. */
  ghost function TableCounts(total: seq<Tagged>, tbls: seq<nat>, t: nat, isDC: bool): (f: seq<nat>)
    ensures |f| == 256 && forall y :: 0 <= y < 256 ==> f[y] == Occurs(total, tbls, t, Symbol(isDC, y))
  {
    seq(256, y requires 0 <= y < 256 => Occurs(total, tbls, t, Symbol(isDC, y)))
  }

  /** The search for the smallest counts reaches those of all tables. */
  ghost predicate Searched(total: seq<Tagged>, tbls: seq<nat>, isDC: bool)
  {
    forall t :: 0 <= t < NUM_HUFF_TBLS ==> T.LastMerged(TableCounts(total, tbls, t, isDC) + [1]) <= T.MAX_COUNT
  }

  /** It does for at most 10^9 symbols. */
  lemma FewTokensSearched(total: seq<Tagged>, tbls: seq<nat>, isDC: bool)
    requires |total| <= T.MAX_COUNT
    ensures Searched(total, tbls, isDC)
  {
    hide T.Total, T.LastMerged, Occurs, TableCounts;
    forall t | 0 <= t < NUM_HUFF_TBLS
      ensures T.LastMerged(TableCounts(total, tbls, t, isDC) + [1]) <= T.MAX_COUNT
    {
      var f := TableCounts(total, tbls, t, isDC);
      CountsTotal(total, tbls, t, isDC, f);
      T.TotalSnoc(f, 1);
      T.FewSearched(f + [1]);
    }
  }

  lemma CountsSearched(counts: seq<seq<nat>>, tbls: seq<nat>, total: seq<Tagged>, isDC: bool, t: nat)
    requires Counted(counts, tbls, total, isDC) && Searched(total, tbls, isDC) && t < NUM_HUFF_TBLS
    ensures |counts| == NUM_HUFF_TBLS && |counts[t]| == 257
    ensures T.LastMerged(counts[t][..256] + [1]) <= T.MAX_COUNT
  {
    hide Occurs, T.LastMerged, TableCounts;
    assert CountedIn(counts[t], tbls, total, isDC, t);
    assert counts[t][..256] == TableCounts(total, tbls, t, isDC);
  }

  predicate OfKind(k: Token, isDC: bool)
  {
    if isDC then k.DcSymbol? else k.AcSymbol?
  }

  ghost predicate HasKind(ks: seq<Token>, isDC: bool)
  {
    exists i :: 0 <= i < |ks| && OfKind(ks[i], isDC)
  }

  ghost predicate HasTagged(tks: seq<Tagged>, ci: nat, isDC: bool)
  {
    exists i :: 0 <= i < |tks| && tks[i].ci == ci && OfKind(tks[i].k, isDC)
  }

  lemma KindAppend(a: seq<Token>, b: seq<Token>, isDC: bool)
    requires HasKind(a, isDC) || HasKind(b, isDC)
    ensures HasKind(a + b, isDC)
  {
    if HasKind(a, isDC) {
      var i :| 0 <= i < |a| && OfKind(a[i], isDC);
      assert (a + b)[i] == a[i];
    } else {
      var i :| 0 <= i < |b| && OfKind(b[i], isDC);
      assert (a + b)[|a| + i] == b[i];
    }
  }

  lemma TaggedKindAppend(a: seq<Tagged>, b: seq<Tagged>, ci: nat, isDC: bool)
    requires HasTagged(a, ci, isDC) || HasTagged(b, ci, isDC)
    ensures HasTagged(a + b, ci, isDC)
  {
    if HasTagged(a, ci, isDC) {
      var i :| 0 <= i < |a| && a[i].ci == ci && OfKind(a[i].k, isDC);
      assert (a + b)[i] == a[i];
    } else {
      var i :| 0 <= i < |b| && b[i].ci == ci && OfKind(b[i].k, isDC);
      assert (a + b)[|a| + i] == b[i];
    }
  }

  lemma TagHas(ci: nat, ks: seq<Token>, isDC: bool)
    requires HasKind(ks, isDC)
    ensures HasTagged(Tag(ci, ks), ci, isDC)
  {
    var i :| 0 <= i < |ks| && OfKind(ks[i], isDC);
    assert Tag(ci, ks)[i] == Tagged(ci, ks[i]);
  }

  lemma FirstHas(k: Token, rest: seq<Token>, isDC: bool)
    requires OfKind(k, isDC)
    ensures HasKind([k] + rest, isDC)
  {
    assert ([k] + rest)[0] == k;
  }

  /** A band sends at least one symbol. */
  lemma {:induction false} AcTokensHas(c: seq<int>, r: nat)
    requires c != [] || r > 0
    ensures HasKind(AcTokens(c, r), false)
    decreases |c|
  {
    hide HasKind, Zrls, Category;
    if c == [] {
      FirstHas(AcSymbol(0), [], false);
      assert [AcSymbol(0)] + [] == [AcSymbol(0)];
    } else if c[0] == 0 {
      AcTokensHas(c[1..], r + 1);
    } else {
      FirstHas(AcSymbol(16 * (r % 16) + Category(c[0])), [Extra(Complemented(c[0]), Category(c[0]))], false);
      KindAppend(Coef(r % 16, c[0]), AcTokens(c[1..], 0), false);
      KindAppend(Zrls(r), Coef(r % 16, c[0]) + AcTokens(c[1..], 0), false);
    }
  }

  lemma EobHas(run: nat, x: seq<bit>)
    requires run > 0
    ensures HasKind(Eob(run, x), false)
  {
    var n := Levels(run);
    FirstHas(AcSymbol(16 * n), (if n == 0 then [] else [Extra(run, n)]) + BitTokens(x), false);
  }

  lemma {:induction false} FrontHas(refine: bool, c: seq<int>, r: nat, br: seq<bit>)
    requires c != [] && Fresh(refine, c[|c| - 1])
    ensures HasKind(FrontTokens(refine, c, r, br), false)
    decreases |c|
  {
    hide HasKind, ZrlTokens, BitTokens, Category;
    var d := c[1..];
    assert d != [] ==> d[|d| - 1] == c[|c| - 1];
    if c[0] == 0 {
      FrontHas(refine, d, r + 1, br);
    } else if Old(refine, c[0]) {
      var more := LeftOver(r, br) + [Abs(c[0]) % 2];
      FrontHas(refine, d, r % 16, more);
      KindAppend(ZrlTokens(r, br), FrontTokens(refine, d, r % 16, more), false);
    } else {
      var coef, rest := Coef(r % 16, c[0]), BitTokens(LeftOver(r, br)) + FrontTokens(refine, d, 0, []);
      FirstHas(AcSymbol(16 * (r % 16) + Category(c[0])), [Extra(Complemented(c[0]), Category(c[0]))], false);
      KindAppend(coef, rest, false);
      KindAppend(ZrlTokens(r, br), coef + rest, false);
    }
  }

  /** A band sends a symbol, or leaves a run pending; a pending run is sent or kept. */
  lemma BandHas(refine: bool, p: Pending, c: seq<int>)
    requires c != [] || p.run > 0
    ensures HasKind(BandTokens(refine, p, c), false) || BandPending(refine, p, c).run > 0
  {
    hide HasKind, FrontTokens, Eob;
    var n, q := FrontLen(refine, c), BandTail(refine, p, c);
    var last := if Full(q) then Eob(q.run, q.bits) else [];
    if n > 0 {
      FrontHas(refine, c[..n], 0, []);
      KindAppend(Eob(p.run, p.bits), FrontTokens(refine, c[..n], 0, []), false);
      KindAppend(BandFront(refine, p, c), last, false);
    } else if Full(q) {
      EobHas(q.run, q.bits);
      KindAppend(BandFront(refine, p, c), last, false);
    }
  }

  lemma PendingSent(s: Scan, e: State)
    requires ValidScan(s) && ValidState(s, e) && e.pending.run > 0
    ensures HasTagged(Flush(e), 0, false)
  {
    EobHas(e.pending.run, e.pending.bits);
    TagHas(0, Eob(e.pending.run, e.pending.bits), false);
  }

  /** A segment of an AC scan that has blocks, or a pending run before it, sends a symbol. */
  lemma {:induction false} AcSegmentHas(s: Scan, e: State, jobs: seq<Job>)
    requires ValidScan(s) && ValidState(s, e) && IsAc(s.mode) && (forall i :: 0 <= i < |jobs| ==> jobs[i].ci < s.comps)
    requires jobs != [] || e.pending.run > 0
    ensures HasTagged(SegmentTagged(s, e, jobs), 0, false)
    decreases |jobs|
  {
    hide HasTagged, HasKind, BandTokens, BandPending, Tag, Flush, Points, Within;
    if jobs == [] {
      PendingSent(s, e);
      TaggedKindAppend(JobsTagged(s, e, jobs), Flush(e), 0, false);
    } else {
      var c, next := BandOf(s, jobs[0].block), AfterJob(s, e, jobs[0]);
      assert |c| == s.se + 1 - s.ss;
      BandHas(s.mode == AcRefine, e.pending, c);
      var own, rest := Tag(0, JobTokens(s, e, jobs[0])), SegmentTagged(s, next, jobs[1..]);
      if HasKind(JobTokens(s, e, jobs[0]), false) {
        TagHas(0, JobTokens(s, e, jobs[0]), false);
      } else {
        AcSegmentHas(s, next, jobs[1..]);
      }
      TaggedKindAppend(own, rest, 0, false);
      Regroup(own, JobsTagged(s, next, jobs[1..]), Flush(AfterJobs(s, next, jobs[1..])));
    }
  }

  lemma JobHas(s: Scan, e: State, job: Job, isDC: bool)
    requires ValidScan(s) && ValidState(s, e) && job.ci < s.comps && !IsAc(s.mode)
    requires if isDC then UsesDc(s.mode) else UsesAc(s)
    ensures HasKind(JobTokens(s, e, job), isDC)
  {
    hide HasKind, AcTokens, Category;
    var x := job.block;
    if isDC {
      var diff := if s.mode == Sequential then x[0] - e.last[job.ci] else DcOf(s, x) - e.last[job.ci];
      FirstHas(DcSymbol(Category(diff)), if diff == 0 then [] else [Extra(Complemented(diff), Category(diff))], true);
      if s.mode == Sequential {
        KindAppend(DcTokens(diff), AcTokens(BandOf(s, x), 0), true);
      }
    } else {
      AcTokensHas(BandOf(s, x), 0);
      KindAppend(DcTokens(x[0] - e.last[job.ci]), AcTokens(BandOf(s, x), 0), false);
    }
  }

  lemma {:induction false} SegmentHas(s: Scan, e: State, jobs: seq<Job>, j: nat, isDC: bool)
    requires ValidScan(s) && ValidState(s, e) && !IsAc(s.mode) && (forall i :: 0 <= i < |jobs| ==> jobs[i].ci < s.comps)
    requires j < |jobs| && (if isDC then UsesDc(s.mode) else UsesAc(s))
    ensures HasTagged(SegmentTagged(s, e, jobs), jobs[j].ci, isDC)
    decreases |jobs|
  {
    hide HasTagged, HasKind, JobTokens, AfterJob, Tag, Flush;
    var ci, next := jobs[j].ci, AfterJob(s, e, jobs[0]);
    var own, rest := Tag(jobs[0].ci, JobTokens(s, e, jobs[0])), SegmentTagged(s, next, jobs[1..]);
    if j == 0 {
      JobHas(s, e, jobs[0], isDC);
      TagHas(ci, JobTokens(s, e, jobs[0]), isDC);
    } else {
      SegmentHas(s, next, jobs[1..], j - 1, isDC);
    }
    TaggedKindAppend(own, rest, ci, isDC);
    Regroup(own, JobsTagged(s, next, jobs[1..]), Flush(AfterJobs(s, next, jobs[1..])));
  }

  /** Every component has a block somewhere in the scan. */
  ghost predicate AllThere(s: Scan, segs: seq<seq<Job>>)
  {
    forall ci :: 0 <= ci < s.comps ==> Present(segs, ci)
  }

  ghost predicate Present(segs: seq<seq<Job>>, ci: nat)
  {
    exists i, j :: 0 <= i < |segs| && 0 <= j < |segs[i]| && segs[i][j].ci == ci
  }

  lemma {:induction false} PartHas(s: Scan, segs: seq<seq<Job>>, i: nat, ci: nat, isDC: bool)
    requires ValidScan(s) && (forall i, j :: 0 <= i < |segs| && 0 <= j < |segs[i]| ==> segs[i][j].ci < s.comps)
    requires i < |segs| && HasTagged(SegmentTagged(s, Start(s), segs[i]), ci, isDC)
    ensures HasTagged(AllTagged(s, segs), ci, isDC)
    decreases |segs|
  {
    hide SegmentTagged, HasTagged;
    var init, last := segs[..|segs| - 1], segs[|segs| - 1];
    if i < |init| {
      PartHas(s, init, i, ci, isDC);
    }
    TaggedKindAppend(AllTagged(s, init), SegmentTagged(s, Start(s), last), ci, isDC);
  }

  /** Every table the scan uses has a symbol counted for it. */
  lemma ScanUses(s: Scan, segs: seq<seq<Job>>, ci: nat, isDC: bool, tbls: seq<nat>)
    requires ValidScan(s) && (forall i, j :: 0 <= i < |segs| && 0 <= j < |segs[i]| ==> segs[i][j].ci < s.comps)
    requires Present(segs, ci) && ci < s.comps <= |tbls|
    requires if isDC then UsesDc(s.mode) else UsesAc(s)
    ensures Uses(AllTagged(s, segs), tbls, tbls[ci], isDC)
  {
    hide SegmentTagged, AllTagged;
    var i, j :| 0 <= i < |segs| && 0 <= j < |segs[i]| && segs[i][j].ci == ci;
    if IsAc(s.mode) {
      AcSegmentHas(s, Start(s), segs[i]);
    } else {
      SegmentHas(s, Start(s), segs[i], j, isDC);
    }
    PartHas(s, segs, i, ci, isDC);
    var total := AllTagged(s, segs);
    var k :| 0 <= k < |total| && total[k].ci == ci && OfKind(total[k].k, isDC);
    assert OfTable(total[k], tbls, tbls[ci], isDC);
  }

  /** The counts of a scan are what table generation can deal with. */
  lemma ScanReady(s: Scan, segs: seq<seq<Job>>, dcTbl: seq<nat>, acTbl: seq<nat>, dc: seq<seq<nat>>, ac: seq<seq<nat>>)
    requires ValidScan(s) && (forall i, j :: 0 <= i < |segs| && 0 <= j < |segs[i]| ==> segs[i][j].ci < s.comps)
    requires forall i :: 0 <= i < |segs| ==> AllInRange(s, Start(s), segs[i])
    requires AllThere(s, segs)
    requires Searched(AllTagged(s, segs), dcTbl, true) && Searched(AllTagged(s, segs), acTbl, false)
    requires Counted(dc, dcTbl, AllTagged(s, segs), true) && Counted(ac, acTbl, AllTagged(s, segs), false)
    requires |dcTbl| == |acTbl| == s.comps
    requires forall ci :: 0 <= ci < s.comps ==> dcTbl[ci] < NUM_HUFF_TBLS && acTbl[ci] < NUM_HUFF_TBLS
    ensures TaggedFit(s, AllTagged(s, segs)) && CountsReady(s, dcTbl, acTbl, dc, ac)
  {
    hide SegmentTagged, AllTagged, AllInRange, Occurs, TaggedFit, Uses, T.LastMerged, T.Roots, Present, Searched;
    HuffmanGather.AllFit(s, segs);
    var total := AllTagged(s, segs);
    forall t | 0 <= t < NUM_HUFF_TBLS
      ensures |dc[t]| == |ac[t]| == 257
      ensures T.LastMerged(dc[t][..256] + [1]) <= T.MAX_COUNT && T.LastMerged(ac[t][..256] + [1]) <= T.MAX_COUNT
      ensures T.Roots(dc[t][..256]) <= 254 && T.Roots(ac[t][..256]) <= 254
    {
      assert CountedIn(dc[t], dcTbl, total, true, t) && CountedIn(ac[t], acTbl, total, false, t);
      FewSymbols(s, dc, dcTbl, total, true, t);
      FewSymbols(s, ac, acTbl, total, false, t);
      CountsSearched(dc, dcTbl, total, true, t);
      CountsSearched(ac, acTbl, total, false, t);
    }
    forall ci | 0 <= ci < s.comps
      ensures UsesDc(s.mode) ==> Countable(dc[dcTbl[ci]][..256])
      ensures UsesAc(s) ==> Countable(ac[acTbl[ci]][..256])
    {
      assert Present(segs, ci);
      if UsesDc(s.mode) {
        ScanUses(s, segs, ci, true, dcTbl);
        SomeSymbol(s, dc, dcTbl, total, true, dcTbl[ci]);
      }
      if UsesAc(s) {
        ScanUses(s, segs, ci, false, acTbl);
        SomeSymbol(s, ac, acTbl, total, false, acTbl[ci]);
      }
    }
  }

  // ------------------------------------------------- the whole statistics pass

  /** A scan that table generation is for: every component has blocks, and the search for the
      smallest counts reaches all of them, as it does for at most 10^9 symbols. */
  ghost predicate Optimizable(s: Scan, segs: seq<seq<Job>>, dcTbl: seq<nat>, acTbl: seq<nat>)
  {
    && ValidScan(s) && (forall i, j :: 0 <= i < |segs| && 0 <= j < |segs[i]| ==> segs[i][j].ci < s.comps)
    && AllThere(s, segs)
    && Searched(AllTagged(s, segs), dcTbl, true) && Searched(AllTagged(s, segs), acTbl, false)
  }

  lemma TotalsMean(s: Scan, sink: SymbolSink, segs: seq<seq<Job>>)
    requires ValidScan(s) && AllValidJobs(s, segs) && TotalsOf(s, sink, segs)
    ensures forall i, j :: 0 <= i < |segs| && 0 <= j < |segs[i]| ==> segs[i][j].ci < s.comps
    ensures Counted(Snap(sink.dcCounts), sink.dcTbl, AllTagged(s, segs), true)
    ensures Counted(Snap(sink.acCounts), sink.acTbl, AllTagged(s, segs), false)
  {
  }

  lemma OptimizableReady(s: Scan, segs: seq<seq<Job>>, dcTbl: seq<nat>, acTbl: seq<nat>, dc: seq<seq<nat>>,
                         ac: seq<seq<nat>>)
    requires ValidScan(s) && Optimizable(s, segs, dcTbl, acTbl)
    requires forall i, j :: 0 <= i < |segs| && 0 <= j < |segs[i]| ==> segs[i][j].ci < s.comps
    requires forall i :: 0 <= i < |segs| ==> AllInRange(s, Start(s), segs[i])
    requires Counted(dc, dcTbl, AllTagged(s, segs), true) && Counted(ac, acTbl, AllTagged(s, segs), false)
    requires |dcTbl| == |acTbl| == s.comps
    requires forall ci :: 0 <= ci < s.comps ==> dcTbl[ci] < NUM_HUFF_TBLS && acTbl[ci] < NUM_HUFF_TBLS
    ensures TaggedFit(s, AllTagged(s, segs)) && CountsReady(s, dcTbl, acTbl, dc, ac)
  {
    hide AllTagged, AllInRange, Counted, TaggedFit, CountsReady, AllThere;
    ScanReady(s, segs, dcTbl, acTbl, dc, ac);
  }

  lemma SinkParts(se: ScanEncoder)
    requires se.Valid()
    ensures ValidScan(se.scan) && se.sink.Parameters() && |se.sink.dcTbl| == |se.sink.acTbl| == se.scan.comps
    ensures forall ci :: 0 <= ci < se.scan.comps ==>
              se.sink.dcTbl[ci] < NUM_HUFF_TBLS && se.sink.acTbl[ci] < NUM_HUFF_TBLS
    ensures |se.sink.dcCounts| == |se.sink.acCounts| == NUM_HUFF_TBLS && Apart(se.sink.dcCounts, se.sink.acCounts)
  {
    hide Counted, TaggedBits, Snap, Apart, WrittenSoFar, Follows;
  }

  lemma TabledFormed(s: Scan, dcTbl: seq<nat>, acTbl: seq<nat>, dc: seq<seq<nat>>, ac: seq<seq<nat>>,
                     dcHuff: seq<Table>, acHuff: seq<Table>)
    requires CountsReady(s, dcTbl, acTbl, dc, ac) && |dcHuff| == |acHuff| == NUM_HUFF_TBLS
    requires Tabled(s, dcTbl, acTbl, dc, ac, dcHuff, acHuff, s.comps)
    ensures |dcTbl| == |acTbl| == s.comps
    ensures forall ci :: 0 <= ci < s.comps ==>
              && dcTbl[ci] < NUM_HUFF_TBLS && acTbl[ci] < NUM_HUFF_TBLS
              && (UsesDc(s.mode) ==> WellFormed(dcHuff[dcTbl[ci]]) && Bytewise(dcHuff[dcTbl[ci]]))
              && (UsesAc(s) ==> WellFormed(acHuff[acTbl[ci]]) && Bytewise(acHuff[acTbl[ci]]))
  {
    hide Countable, Legal, Upto, ListsSymbols;
  }

  /** How often the symbols occur in the segments. */
  ghost predicate CountsOf(s: Scan, segs: seq<seq<Job>>, dcTbl: seq<nat>, acTbl: seq<nat>, dc: seq<seq<nat>>,
                           ac: seq<seq<nat>>)
    requires ValidScan(s)
  {
    && (forall i, j :: 0 <= i < |segs| && 0 <= j < |segs[i]| ==> segs[i][j].ci < s.comps)
    && Counted(dc, dcTbl, AllTagged(s, segs), true) && Counted(ac, acTbl, AllTagged(s, segs), false)
  }

  lemma CountsIs(s: Scan, segs: seq<seq<Job>>, dcTbl: seq<nat>, acTbl: seq<nat>, dc: seq<seq<nat>>, ac: seq<seq<nat>>)
    requires ValidScan(s) && (forall i, j :: 0 <= i < |segs| && 0 <= j < |segs[i]| ==> segs[i][j].ci < s.comps)
    requires Counted(dc, dcTbl, AllTagged(s, segs), true) && Counted(ac, acTbl, AllTagged(s, segs), false)
    ensures CountsOf(s, segs, dcTbl, acTbl, dc, ac)
  {
    hide Counted, AllTagged;
  }

  /** A scan of few symbols never overflows. */
  lemma FewTokensFit(s: Scan, dcTbl: seq<nat>, acTbl: seq<nat>, dc: seq<seq<nat>>, ac: seq<seq<nat>>,
                     total: seq<Tagged>)
    requires CountsReady(s, dcTbl, acTbl, dc, ac) && |total| < L.OVERFLOW_TOTAL
    requires Counted(dc, dcTbl, total, true) && Counted(ac, acTbl, total, false)
    ensures AllCodesFit(s, dcTbl, acTbl, dc, ac, s.comps)
  {
    hide CodesFit, Occurs, T.Total, Countable;
    forall t | 0 <= t < NUM_HUFF_TBLS
      ensures CodesFit(dc[t][..256]) && CodesFit(ac[t][..256])
    {
      assert CountedIn(dc[t], dcTbl, total, true, t) && CountedIn(ac[t], acTbl, total, false, t);
      CountsTotal(total, dcTbl, t, true, dc[t][..256]);
      CountsTotal(total, acTbl, t, false, ac[t][..256]);
      L.FewFit(dc[t][..256]);
      L.FewFit(ac[t][..256]);
    }
  }

  lemma FewSymbolsFit(s: Scan, segs: seq<seq<Job>>, dcTbl: seq<nat>, acTbl: seq<nat>, dc: seq<seq<nat>>,
                      ac: seq<seq<nat>>)
    requires ValidScan(s) && CountsOf(s, segs, dcTbl, acTbl, dc, ac) && CountsReady(s, dcTbl, acTbl, dc, ac)
    ensures forall i, j :: 0 <= i < |segs| && 0 <= j < |segs[i]| ==> segs[i][j].ci < s.comps
    ensures |AllTagged(s, segs)| < L.OVERFLOW_TOTAL ==> AllCodesFit(s, dcTbl, acTbl, dc, ac, s.comps)
  {
    hide Counted, AllTagged, AllCodesFit, CountsReady;
    if |AllTagged(s, segs)| < L.OVERFLOW_TOTAL {
      FewTokensFit(s, dcTbl, acTbl, dc, ac, AllTagged(s, segs));
    }
  }

  /** finish_pass_gather for a whole scan, and the tables the output pass then derives: unless
      a code of an unlimited Huffman code is longer than 32 bits, which takes 9227464 symbols,
      every scan of the same MCUs is accepted with them. */
  method FinishPassGather(se: ScanEncoder, dcOld: seq<Table>, acOld: seq<Table>)
    returns (ok: bool, ts: seq<CompTables>, ghost dc: seq<seq<nat>>, ghost ac: seq<seq<nat>>)
    requires se.Valid() && se.sink.gather && |dcOld| == |acOld| == NUM_HUFF_TBLS
    requires Optimizable(se.scan, Segments(se.mcus, se.restartInterval), se.sink.dcTbl, se.sink.acTbl)
    modifies se, se.ac, se.sink, se.sink.w, se.sink.dcCounts, se.sink.acCounts
    ensures se.mcus == old(se.mcus) && ValidScan(se.scan)
            && AllValidJobs(se.scan, Segments(se.mcus, se.restartInterval))
    ensures AllTaken(se.scan, true, [], Segments(se.mcus, se.restartInterval))
    ensures CountsOf(se.scan, Segments(se.mcus, se.restartInterval), se.sink.dcTbl, se.sink.acTbl, dc, ac)
    ensures CountsReady(se.scan, se.sink.dcTbl, se.sink.acTbl, dc, ac)
    ensures ok <==> AllCodesFit(se.scan, se.sink.dcTbl, se.sink.acTbl, dc, ac, se.scan.comps)
    ensures |AllTagged(se.scan, Segments(se.mcus, se.restartInterval))| < L.OVERFLOW_TOTAL ==> ok
    ensures ok ==> && Encodable(se.scan, ts) && Readied(se.scan, ts) && |ts| == se.scan.comps
    ensures ok ==> && Generated(se.scan, ts, dc, ac, se.sink.dcTbl, se.sink.acTbl)
                   && (forall ci :: 0 <= ci < |ts| ==> Usable(ts[ci]))
                   && AllAccepted(se.scan, ts, Segments(se.mcus, se.restartInterval))
  {
    hide *;
    SinkParts(se);
    var done := se.FinishPass();
    ghost var segs := Segments(se.mcus, se.restartInterval);
    TotalsMean(se.scan, se.sink, segs);
    TakenIs(se.scan, [], segs);
    dc, ac := Snap(se.sink.dcCounts), Snap(se.sink.acCounts);
    CountsIs(se.scan, segs, se.sink.dcTbl, se.sink.acTbl, dc, ac);
    OptimizableReady(se.scan, segs, se.sink.dcTbl, se.sink.acTbl, dc, ac);
    var dcHuff, acHuff;
    ts := [];
    FewSymbolsFit(se.scan, segs, se.sink.dcTbl, se.sink.acTbl, dc, ac);
    ok, dcHuff, acHuff :=
      GenerateTables(se.scan, se.sink.dcTbl, se.sink.acTbl, se.sink.dcCounts, se.sink.acCounts, dcOld, acOld);
    if ok {
      TabledFormed(se.scan, se.sink.dcTbl, se.sink.acTbl, dc, ac, dcHuff, acHuff);
      TabledDerivable(se.scan, se.sink.dcTbl, se.sink.acTbl, dc, ac, dcHuff, acHuff, AllTagged(se.scan, segs));
      var derived;
      derived, ts := DeriveTables(se.scan, se.sink.dcTbl, se.sink.acTbl, dcHuff, acHuff);
      DerivedGenerated(se.scan, se.sink.dcTbl, se.sink.acTbl, dc, ac, dcHuff, acHuff, ts);
      GatheredAccepted(se.scan, ts, segs, dc, ac, se.sink.dcTbl, se.sink.acTbl);
    }
  }
}
