/** What the marker reader makes of segments byte by byte (jdmarker.c): each layout of T.81 Tables
    B.1 to B.6 changes the parameters it gives, to the values it gives, and no others. */
module MarkerBytesRead {
  import opened Bytes
  import opened HuffmanCode
  import opened ArithScan
  import opened MarkerFormat
  import opened MarkerRoundTrip
  import opened MarkerWriting
  import opened MarkerReading
  import opened MarkerBytes

  lemma LengthIs(src: seq<byte>, p: nat, m: byte, size: nat)
    requires Starts(src, p, m, size)
    ensures p + 4 + size <= |src| && src[p + 1] == m && Word(src, p + 2) == size + 2
  {
  }

  // -------------------------------------------------------------------------- DQT

  /** The order in which `n` values are stored: that of blocks with so many coefficients. */
  function OrderFor(o: Orders, n: nat): (order: seq<nat>)
    requires LegalOrders(o) && n <= 64
    ensures IsInjective(order, n)
    ensures n == 4 ==> order == o.small[2]
    ensures n == 9 ==> order == o.small[3]
    ensures n == 16 ==> order == o.small[4]
    ensures n == 25 ==> order == o.small[5]
    ensures n == 36 ==> order == o.small[6]
    ensures n == 49 ==> order == o.small[7]
    ensures !(n == 4 || n == 9 || n == 16 || n == 25 || n == 36 || n == 49) ==> order == o.full
  {
    OrderOf(o, n)
  }

  lemma {:induction false} StoredOther(base: seq<nat>, order: seq<nat>, vals: seq<nat>, n: nat, j: nat)
    requires IsInjective(order, n) && |base| == 64 && n <= |vals| && j < 64
    requires forall i :: 0 <= i < n ==> order[i] != j
    ensures Stored(base, order, vals, n)[j] == base[j]
  {
    if n != 0 {
      StoredOther(base, order, vals, n - 1, j);
    }
  }

  lemma StoredIs(base: seq<nat>, order: seq<nat>, vals: seq<nat>, n: nat)
    requires IsInjective(order, n) && |base| == 64 && n == |vals|
    ensures n <= |order| && (forall k :: 0 <= k < n ==> order[k] < 64)
    ensures forall k :: 0 <= k < n ==> Stored(base, order, vals, n)[order[k]] == vals[k]
    ensures forall j :: 0 <= j < 64 && j !in order[..n] ==> Stored(base, order, vals, n)[j] == base[j]
  {
    hide Stored;
    forall k | 0 <= k < n
      ensures Stored(base, order, vals, n)[order[k]] == vals[k]
    {
      StoredAt(base, order, vals, n, k);
    }
    forall j | 0 <= j < 64 && j !in order[..n]
      ensures Stored(base, order, vals, n)[j] == base[j]
    {
      assert forall i :: 0 <= i < n ==> order[..n][i] == order[i];
      StoredOther(base, order, vals, n, j);
    }
  }

  lemma ValuesTaken(src: seq<byte>, p: nat, wide: bool, vals: seq<nat>)
    requires p + QuantSize(wide, |vals|) <= |src|
    requires forall k :: 0 <= k < |vals| ==> vals[k] == if wide then Number(src, p + 2 * k) else src[p + k]
    ensures Values(src, p, wide, |vals|) == vals
  {
    var r := Values(src, p, wide, |vals|);
    assert forall k :: 0 <= k < |vals| ==> r[k] == vals[k];
  }

  /** A quantization table: its values in zigzag order; if there are fewer than 64, the other ones
      are 1. */
  lemma DqtTaken(src: seq<byte>, p: nat, tq: nat, wide: bool, vals: seq<nat>, d: Known, o: Orders)
    returns (t: seq<nat>)
    requires LegalOrders(o) && LegalCond(d.cond) && tq < 4 && |vals| <= 64 && DqtLayout(src, p, tq, wide, vals)
    ensures |t| == 64 && forall k :: 0 <= k < |vals| ==> t[OrderFor(o, |vals|)[k]] == vals[k]
    ensures |vals| < 64 ==> forall j :: 0 <= j < 64 && j !in OrderFor(o, |vals|)[..|vals|] ==> t[j] == 1
    ensures OneMarker(src, p + 2, 0xDB, d, o)
         == Go(d.(quant := d.quant[tq := t]), p + 5 + QuantSize(wide, |vals|))
  {
    hide LegalOrders, IsInjective, Stored, Values, OrderOf, Number, Word;
    var n, size, order := |vals|, QuantSize(wide, |vals|), OrderFor(o, |vals|);
    var base := DqtBase(wide, size, tq, d.quant);
    LengthIs(src, p, 0xDB, 1 + size);
    ValuesTaken(src, p + 5, wide, vals);
    t := Stored(base, order, vals, n);
    StoredIs(base, order, vals, n);
    assert n < 64 ==> forall j :: 0 <= j < 64 ==> base[j] == 1;
    DqtStep(src, p + 4, src[p + 4], tq, wide, vals, n, size, d.quant, o);
    DqtEnd(src, p + 5 + size, d.quant[tq := t], o);
    DqtMarker(src, p + 2, d.quant[tq := t], d, o);
  }

  lemma DqtMarker(src: seq<byte>, p: nat, quant: map<nat, seq<nat>>, d: Known, o: Orders)
    requires LegalOrders(o) && LegalCond(d.cond) && p + 2 <= |src|
    requires DqtTables(src, p + 2, Word(src, p) - 2, d.quant, o).Done?
    requires DqtTables(src, p + 2, Word(src, p) - 2, d.quant, o).value == quant
    ensures OneMarker(src, p, 0xDB, d, o)
         == Go(d.(quant := quant), DqtTables(src, p + 2, Word(src, p) - 2, d.quant, o).next)
  {
    hide LegalOrders, DqtTables, Word;
  }

  // -------------------------------------------------------------------------- DHT

  /** The table that the reader makes of counts and symbols. */
  function TableFrom(bits: seq<nat>, vals: seq<nat>): (t: Table)
    requires |bits| == 16 && |vals| <= 256
    ensures WellFormed(t) && t.bits[0] == 0 && (forall i :: 0 <= i < 16 ==> t.bits[i + 1] == bits[i])
    ensures forall j :: 0 <= j < 256 ==> t.vals[j] == if j < |vals| then vals[j] else 0
  {
    Table([0] + bits, vals + seq(256 - |vals|, i => 0))
  }

  /** A Huffman table: counts of lengths 1 to 16, symbols, and zeros after them. */
  lemma DhtTaken(src: seq<byte>, p: nat, ac: bool, th: nat, bits: seq<nat>, vals: seq<nat>, d: Known, o: Orders)
    requires LegalOrders(o) && LegalCond(d.cond) && th < 4 && DhtLayout(src, p, ac, th, bits, vals) && |vals| <= 256
    ensures OneMarker(src, p + 2, 0xC4, d, o)
         == Go(d.(huff := if ac then d.huff.(ac := d.huff.ac[th := TableFrom(bits, vals)])
                          else d.huff.(dc := d.huff.dc[th := TableFrom(bits, vals)])), p + 21 + |vals|)
  {
    hide LegalOrders, Number, Word, CodeCount, Sum;
    var t := TableFrom(bits, vals);
    LengthIs(src, p, 0xC4, 17 + |vals|);
    SumIsCount(bits);
    assert Nats(src[p + 5..p + 21]) == bits;
    assert Nats(src[p + 21..p + 21 + |vals|]) == vals;
    assert vals + Zeros256(256 - |vals|) == t.vals;
    assert t.bits[1..] == bits && [0] + t.bits[1..] == t.bits;
    DhtStep(src, p + 4, src[p + 4], th, ac, t, |vals|, d.huff);
    var h := if ac then d.huff.(ac := d.huff.ac[th := t]) else d.huff.(dc := d.huff.dc[th := t]);
    DhtEnd(src, p + 21 + |vals|, h);
    DhtMarker(src, p + 2, d, o);
  }

  lemma DhtMarker(src: seq<byte>, p: nat, d: Known, o: Orders)
    requires LegalOrders(o) && LegalCond(d.cond) && p + 2 <= |src|
    requires DhtTables(src, p + 2, Word(src, p) - 2, d.huff).Done?
    ensures var r := DhtTables(src, p + 2, Word(src, p) - 2, d.huff);
      OneMarker(src, p, 0xC4, d, o) == Go(d.(huff := r.value), r.next)
  {
    hide LegalOrders, DhtTables, Word;
  }

  // -------------------------------------------------------------------------- DAC

  /** Tables that exist, each once, and a lower bound not above the upper one. */
  predicate LegalEntries(entries: seq<(nat, nat)>)
  {
    && (forall k :: 0 <= k < |entries| ==>
          entries[k].0 < 32 && entries[k].1 < 256 && (entries[k].0 < 16 ==> entries[k].1 % 16 <= entries[k].1 / 16))
    && forall k, l :: 0 <= k < l < |entries| ==> entries[k].0 != entries[l].0
  }

  predicate Mentions(entries: seq<(nat, nat)>, table: nat)
  {
    exists k :: 0 <= k < |entries| && entries[k].0 == table
  }

  /** The values of the tables that are mentioned: L and U in the low and the high half of the byte,
      or Kx.  The others as before. */
  ghost predicate CondTaken(r: Conditioning, was: Conditioning, entries: seq<(nat, nat)>)
    requires LegalCond(was)
  {
    && LegalCond(r)
    && (forall k :: 0 <= k < |entries| && entries[k].0 < 16 ==>
          && r.dcL[entries[k].0] == entries[k].1 % 16 && r.dcU[entries[k].0] == entries[k].1 / 16)
    && (forall k :: 0 <= k < |entries| && 16 <= entries[k].0 < 32 ==> r.acK[entries[k].0 - 16] == entries[k].1)
    && (forall i :: 0 <= i < 16 && !Mentions(entries, i) ==> r.dcL[i] == was.dcL[i] && r.dcU[i] == was.dcU[i])
    && forall i :: 0 <= i < 16 && !Mentions(entries, i + 16) ==> r.acK[i] == was.acK[i]
  }

  function OneTaken(was: Conditioning, e: (nat, nat)): (r: Conditioning)
    requires LegalCond(was) && e.0 < 32
    ensures LegalCond(r)
  {
    if e.0 < 16 then was.(dcL := was.dcL[e.0 := e.1 % 16], dcU := was.dcU[e.0 := e.1 / 16])
    else was.(acK := was.acK[e.0 - 16 := e.1])
  }

  lemma CondTakenNext(r: Conditioning, was: Conditioning, entries: seq<(nat, nat)>)
    requires LegalCond(was) && LegalEntries(entries) && entries != []
    requires CondTaken(r, OneTaken(was, entries[0]), entries[1..])
    ensures CondTaken(r, was, entries)
  {
    var e, rest, mid := entries[0], entries[1..], OneTaken(was, entries[0]);
    assert entries == [e] + rest;
    assert !Mentions(rest, e.0);
    forall i | 0 <= i < 32 && !Mentions(entries, i)
      ensures !Mentions(rest, i) && i != e.0
    {
      assert entries[0].0 == e.0;
      assert forall k :: 0 <= k < |rest| ==> rest[k] == entries[k + 1];
    }
    forall k | 0 <= k < |entries|
      ensures entries[k].0 < 16 ==>
                r.dcL[entries[k].0] == entries[k].1 % 16 && r.dcU[entries[k].0] == entries[k].1 / 16
      ensures 16 <= entries[k].0 < 32 ==> r.acK[entries[k].0 - 16] == entries[k].1
    {
      if k > 0 {
        assert entries[k] == rest[k - 1];
      }
    }
  }

  lemma {:induction false} EntriesTaken(src: seq<byte>, p: nat, entries: seq<(nat, nat)>, was: Conditioning)
    returns (r: Conditioning)
    requires LegalCond(was) && LegalEntries(entries) && EntriesAt(src, p, entries)
    ensures DacEntries(src, p, 2 * |entries|, was) == Done(r, p + 2 * |entries|) && CondTaken(r, was, entries)
    decreases |entries|
  {
    hide CondTaken, LegalCond, OneTaken;
    if entries == [] {
      r := was;
      NoneMentioned(was);
    } else {
      var e, rest := entries[0], entries[1..];
      assert LegalEntries(rest);
      assert EntriesAt(src, p + 2, rest) by {
        assert forall k :: 0 <= k < |rest| ==> rest[k] == entries[k + 1];
      }
      r := EntriesTaken(src, p + 2, rest, OneTaken(was, e));
      EntryTaken(src, p, entries, was);
      CondTakenNext(r, was, entries);
    }
  }

  lemma NoneMentioned(was: Conditioning)
    requires LegalCond(was)
    ensures CondTaken(was, was, [])
  {
  }

  lemma EntryTaken(src: seq<byte>, p: nat, entries: seq<(nat, nat)>, was: Conditioning)
    requires LegalCond(was) && LegalEntries(entries) && entries != [] && EntriesAt(src, p, entries)
    ensures DacEntries(src, p, 2 * |entries|, was)
         == DacEntries(src, p + 2, 2 * |entries| - 2, OneTaken(was, entries[0]))
  {
    assert entries[0] == (src[p + 2 * 0] as nat, src[p + 1 + 2 * 0] as nat);
  }

  /** Conditioning values. */
  lemma DacTaken(src: seq<byte>, p: nat, entries: seq<(nat, nat)>, d: Known, o: Orders) returns (r: Conditioning)
    requires LegalOrders(o) && LegalCond(d.cond) && LegalEntries(entries) && DacLayout(src, p, entries)
    ensures CondTaken(r, d.cond, entries)
    ensures OneMarker(src, p + 2, 0xCC, d, o) == Go(d.(cond := r), p + 4 + 2 * |entries|)
  {
    hide LegalOrders, LegalEntries, CondTaken, Number, Word, DacEntries, LegalCond;
    LengthIs(src, p, 0xCC, 2 * |entries|);
    assert EntriesAt(src, p + 4, entries);
    r := EntriesTaken(src, p + 4, entries, d.cond);
  }

  // ------------------------------------------------------------------ DRI and LSE

  /** The restart interval. */
  lemma DriTaken(src: seq<byte>, p: nat, interval: nat, d: Known, o: Orders)
    requires LegalOrders(o) && LegalCond(d.cond) && DriLayout(src, p, interval)
    ensures OneMarker(src, p + 2, 0xDD, d, o) == Go(d.(restart := interval), p + 6)
  {
  }

  /** The color transform, for the identifiers of the frame's first three components. */
  lemma LseTaken(src: seq<byte>, p: nat, d: Known, o: Orders)
    requires LegalOrders(o) && LegalCond(d.cond) && d.sawSof && |d.frame.comps| >= 3
    requires d.frame.comps[0].id < 256 && d.frame.comps[1].id < 256 && d.frame.comps[2].id < 256
    requires Has(src, p, [0xFF, 0xF8, 0, 24, 0x0D, 0, 255, 3, d.frame.comps[1].id, d.frame.comps[0].id,
                          d.frame.comps[2].id, 0x80, 0, 0, 0, 0, 0, 0, 1, 0, 0, 0, 0, 1, 0, 0])
    ensures OneMarker(src, p + 2, 0xF8, d, o) == Go(d.(subtractGreen := true), p + 26)
  {
    hide Has, FieldBytes, Two, LseFields, ParseLse;
    var ids := Ids(d.frame.comps);
    LseSpelled(Settings(d.frame, false, false, 8, o, 1));
    LseSize(ids);
    assert Segment(LSE, FieldBytes(LseFields(ids))) == [0xFF, 0xF8] + (Two(24) + FieldBytes(LseFields(ids)));
    HasSplit(src, p, [0xFF, 0xF8], Two(24) + FieldBytes(LseFields(ids)));
    HasSize(src, p + 2, Two(24) + FieldBytes(LseFields(ids)));
    LseRead(src, p + 2, ids);
  }

  // -------------------------------------------------------------------------- SOF

  lemma {:induction false} CompsTaken(src: seq<byte>, p: nat, comps: seq<Component>, i: nat)
    requires i <= |comps| && p + 3 * |comps| <= |src| && Distinct(Ids(comps)) && Plain(comps) == comps
    requires forall k :: 0 <= k < |comps| ==>
      && src[p + 3 * k] as nat == comps[k].id && comps[k].h < 16 && comps[k].v < 16
      && src[p + 1 + 3 * k] as nat == 16 * comps[k].h + comps[k].v && src[p + 2 + 3 * k] as nat == comps[k].tq
    ensures SofComps(src, p + 3 * i, |comps| - i, comps[..i]) == Done(comps, p + 3 * |comps|)
    decreases |comps| - i
  {
    hide SofComps, FakeId;
    if i == |comps| {
      assert comps[..i] == comps;
      NoComps(src, p + 3 * i, comps);
    } else {
      NewComp(comps, i);
      CompTaken(src, p + 3 * i, |comps| - i, comps[..i], comps[i]);
      assert comps[..i] + [comps[i]] == comps[..i + 1];
      CompsTaken(src, p, comps, i + 1);
    }
  }

  lemma NewComp(comps: seq<Component>, i: nat)
    requires i < |comps| && Distinct(Ids(comps)) && Plain(comps) == comps
    ensures comps[i].id !in Ids(comps[..i]) && comps[i].dcTbl == comps[i].acTbl == 0
  {
    assert Ids(comps)[i] == comps[i].id && Plain(comps)[i] == comps[i];
    assert forall k :: 0 <= k < i ==> Ids(comps[..i])[k] == Ids(comps)[k];
  }

  lemma CompTaken(src: seq<byte>, p: nat, n: nat, done: seq<Component>, c: Component)
    requires p + 3 <= |src| && 0 < n && c.id !in Ids(done) && c.dcTbl == c.acTbl == 0
    requires src[p] as nat == c.id && c.h < 16 && c.v < 16 && src[p + 1] as nat == 16 * c.h + c.v
    requires src[p + 2] as nat == c.tq
    ensures SofComps(src, p, n, done) == SofComps(src, p + 3, n - 1, done + [c])
  {
    hide FakeId;
    assert c == Component(src[p], src[p + 1] / 16, src[p + 1] % 16, src[p + 2], 0, 0);
  }

  /** The frame parameters and the coding process, which the marker gives. */
  lemma SofTaken(src: seq<byte>, p: nat, m: byte, f: FrameInfo, d: Known, o: Orders)
    requires LegalOrders(o) && LegalCond(d.cond) && !d.sawSof && SofLayout(src, p, m, f)
    requires m == 0xC0 || m == 0xC1 || m == 0xC2 || m == 0xC9 || m == 0xCA
    requires 0 < f.height && 0 < f.width && 0 < |f.comps| && Distinct(Ids(f.comps)) && Plain(f.comps) == f.comps
    requires forall i :: 0 <= i < |f.comps| ==> f.comps[i].h < 16 && f.comps[i].v < 16
    ensures OneMarker(src, p + 2, m, d, o)
         == Go(d.(sawSof := true, baseline := m == 0xC0, progressive := m == 0xC2 || m == 0xCA,
                  arith := m == 0xC9 || m == 0xCA, frame := f), p + 10 + 3 * |f.comps|)
  {
    hide LegalOrders, SofComps, Distinct;
    CompsTaken(src, p + 10, f.comps, 0);
    assert f.comps[..0] == [];
    assert ParseSof(src, p + 2, false) == Done(f, p + 10 + 3 * |f.comps|);
  }

  // -------------------------------------------------------------------------- SOS

  /** The components `comps` with the table numbers given for those in the scan. */
  predicate TablesTaken(after: seq<Component>, comps: seq<Component>, scan: seq<nat>, specs: seq<(nat, nat, nat)>,
                        n: nat)
  {
    && |after| == |comps| && n <= |scan| == |specs|
    && (forall i :: 0 <= i < n ==>
          scan[i] < |comps| && after[scan[i]] == comps[scan[i]].(dcTbl := specs[i].1, acTbl := specs[i].2))
    && forall j :: 0 <= j < |comps| && j !in scan[..n] ==> after[j] == comps[j]
  }

  lemma TablesTakenNext(now: seq<Component>, comps: seq<Component>, scan: seq<nat>, specs: seq<(nat, nat, nat)>, n: nat)
    requires TablesTaken(now, comps, scan, specs, n) && n < |scan| && Distinct(scan) && scan[n] < |comps|
    ensures TablesTaken(now[scan[n] := now[scan[n]].(dcTbl := specs[n].1, acTbl := specs[n].2)], comps, scan, specs,
                        n + 1)
  {
    var ci := scan[n];
    var next := now[ci := now[ci].(dcTbl := specs[n].1, acTbl := specs[n].2)];
    assert forall i :: 0 <= i < n ==> scan[..n][i] == scan[i] && scan[i] != ci;
    assert ci !in scan[..n];
    assert scan[..n + 1] == scan[..n] + [ci];
  }

  lemma {:induction false} SpecsTaken(src: seq<byte>, p: nat, comps: seq<Component>, scan: seq<nat>,
                                      specs: seq<(nat, nat, nat)>, now: seq<Component>, n: nat)
    returns (after: seq<Component>)
    requires n <= |scan| == |specs| && p + 2 * |specs| <= |src| && Distinct(scan) && Distinct(Ids(comps))
    requires forall i :: 0 <= i < |scan| ==> scan[i] < |comps| && specs[i].0 == comps[scan[i]].id
    requires forall i :: 0 <= i < |specs| ==>
      && src[p + 2 * i] as nat == specs[i].0 && specs[i].1 < 16 && specs[i].2 < 16
      && src[p + 1 + 2 * i] as nat == 16 * specs[i].1 + specs[i].2
    requires TablesTaken(now, comps, scan, specs, n) && Ids(now) == Ids(comps)
    ensures SosComps(src, p + 2 * n, |scan| - n, now, scan[..n]) == Done((after, scan), p + 2 * |scan|)
    ensures TablesTaken(after, comps, scan, specs, |scan|)
    decreases |scan| - n
  {
    hide SosComps, TablesTaken, Distinct, Ids;
    Sizes(now, comps, scan, specs, n);
    if n == |scan| {
      after := now;
      assert scan[..n] == scan;
      NoSosComps(src, p + 2 * n, now, scan);
    } else {
      var ci, spec := scan[n], specs[n];
      var next := now[ci := now[ci].(dcTbl := spec.1, acTbl := spec.2)];
      SameIds(next, now);
      TablesTakenNext(now, comps, scan, specs, n);
      SpecTaken(src, p + 2 * n, |scan| - n, now, scan, n, spec);
      after := SpecsTaken(src, p, comps, scan, specs, next, n + 1);
    }
  }

  lemma Sizes(now: seq<Component>, comps: seq<Component>, scan: seq<nat>, specs: seq<(nat, nat, nat)>, n: nat)
    requires TablesTaken(now, comps, scan, specs, n)
    ensures |now| == |comps| && forall k :: 0 <= k < |now| ==> now[k].id == comps[k].id
  {
    forall k | 0 <= k < |now|
      ensures now[k].id == comps[k].id
    {
      if k in scan[..n] {
        var i :| 0 <= i < n && scan[..n][i] == k;
        assert scan[i] == k;
      }
    }
  }

  lemma SpecTaken(src: seq<byte>, p: nat, left: nat, now: seq<Component>, scan: seq<nat>, n: nat, spec: (nat, nat, nat))
    requires n < |scan| && 0 < left && p + 2 <= |src| && Distinct(scan) && Distinct(Ids(now))
    requires (forall i :: 0 <= i < |scan| ==> scan[i] < |now|) && now[scan[n]].id == spec.0
    requires src[p] as nat == spec.0 && spec.1 < 16 && spec.2 < 16 && src[p + 1] as nat == 16 * spec.1 + spec.2
    ensures SosComps(src, p, left, now, scan[..n])
         == SosComps(src, p + 2, left - 1, now[scan[n] := now[scan[n]].(dcTbl := spec.1, acTbl := spec.2)],
                     scan[..n + 1])
  {
    hide FakeId, Find, Distinct;
    NewInScan(now, scan, n);
    FindIs(now, scan[n]);
    assert src[p + 1] / 16 == spec.1 && src[p + 1] % 16 == spec.2;
    assert scan[..n] + [scan[n]] == scan[..n + 1];
  }

  /** A scan: its components, each by its identifier and with its table numbers, and its parameters;
      then reading stops. */
  lemma SosTaken(src: seq<byte>, p: nat, scan: seq<nat>, specs: seq<(nat, nat, nat)>, ss: nat, se: nat, ah: nat,
                 al: nat, d: Known, o: Orders)
    returns (after: seq<Component>)
    requires LegalOrders(o) && LegalCond(d.cond) && d.sawSof && SosLayout(src, p, specs, ss, se, ah, al)
    requires 1 <= |scan| <= 4 && |scan| == |specs| && Distinct(scan) && Distinct(Ids(d.frame.comps))
    requires forall i :: 0 <= i < |scan| ==>
      && scan[i] < |d.frame.comps| && specs[i].0 == d.frame.comps[scan[i]].id && specs[i].1 < 16 && specs[i].2 < 16
    requires ah < 16 && al < 16
    ensures TablesTaken(after, d.frame.comps, scan, specs, |scan|)
    ensures OneMarker(src, p + 2, 0xDA, d, o)
         == Halt(AtSos, d.(frame := d.frame.(comps := after), scan := ScanInfo(scan, ss, se, ah, al),
                           scans := d.scans + 1), p + 8 + 2 * |scan|, 0)
  {
    hide LegalOrders, SosComps, Distinct, TablesTaken;
    var comps := d.frame.comps;
    NoneTakenYet(comps, scan, specs);
    after := SpecsTaken(src, p + 5, comps, scan, specs, comps, 0);
    assert scan[..0] == [];
    assert ParseSos(src, p + 2, d.progressive, comps)
        == Done((after, ScanInfo(scan, ss, se, ah, al)), p + 8 + 2 * |scan|);
    Sizes(after, comps, scan, specs, |scan|);
  }

  lemma NoneTakenYet(comps: seq<Component>, scan: seq<nat>, specs: seq<(nat, nat, nat)>)
    requires |scan| == |specs|
    ensures TablesTaken(comps, comps, scan, specs, 0)
  {
  }

  /** In a progressive frame a scan without components gives the last coefficient only. */
  lemma PseudoTaken(src: seq<byte>, p: nat, se: byte, d: Known, o: Orders)
    requires LegalOrders(o) && LegalCond(d.cond) && d.sawSof && d.progressive
    requires p + 8 <= |src| && src[p..p + 8] == [0xFF, 0xDA, 0, 6, 0, 0, se, 0]
    ensures OneMarker(src, p + 2, 0xDA, d, o) == Halt(AtSos, d.(scan := ScanInfo([], 0, se, 0, 0)), p + 8, 0)
  {
    var s := src[p..p + 8];
    assert s[2] == src[p + 2] && s[3] == src[p + 3] && s[4] == src[p + 4] && s[5] == src[p + 5] && s[6] == src[p + 6]
           && s[7] == src[p + 7];
  }

  // ---------------------------------------------------------- the ends of the file

  /** The start of the image resets the restart interval, the color transform and the conditioning
      values to 0, 1 and 5. */
  lemma SoiTaken(src: seq<byte>, p: nat, d: Known, o: Orders)
    requires LegalOrders(o) && LegalCond(d.cond) && p <= |src| && !d.sawSoi
    ensures var r := OneMarker(src, p, 0xD8, d, o);
      && r.Go? && r.next == p && LegalCond(r.d.cond)
      && r.d == d.(sawSoi := true, restart := 0, subtractGreen := false, cond := r.d.cond)
      && forall i :: 0 <= i < 16 ==> r.d.cond.dcL[i] == 0 && r.d.cond.dcU[i] == 1 && r.d.cond.acK[i] == 5
  {
  }

  /** At the end of the image reading stops. */
  lemma EoiTaken(src: seq<byte>, p: nat, d: Known, o: Orders)
    requires LegalOrders(o) && LegalCond(d.cond) && p <= |src|
    ensures OneMarker(src, p, 0xD9, d, o) == Halt(AtEoi, d, p, 0)
  {
  }

  /** Restart markers and TEM are passed over; application data, comments and DNL are left to other
      routines; every marker that is not one of those above is refused. */
  lemma OtherMarkers(src: seq<byte>, p: nat, m: byte, d: Known, o: Orders)
    requires LegalOrders(o) && LegalCond(d.cond) && p <= |src|
    ensures 0xD0 <= m <= 0xD7 || m == 0x01 ==> OneMarker(src, p, m, d, o) == Go(d, p)
    ensures 0xE0 <= m <= 0xEF || m == 0xFE || m == 0xDC ==> OneMarker(src, p, m, d, o) == Halt(Elsewhere, d, p, m)
    ensures m == 0 || 0x02 <= m <= 0xBF || m == 0xC3 || 0xC5 <= m <= 0xC8 || m == 0xCB || 0xCD <= m <= 0xCF
            || 0xDE <= m <= 0xDF || 0xF0 <= m <= 0xF7 || 0xF9 <= m <= 0xFD || m == 0xFF ==>
              OneMarker(src, p, m, d, o) == Halt(Refused, d, p, m)
  {
  }

  // ---------------------------------------------------------- several tables at once

  /** A table of 64 values with more tables after it in the segment. */
  lemma DqtMore(src: seq<byte>, p: nat, tq: nat, wide: bool, vals: seq<nat>, more: nat, quant: map<nat, seq<nat>>,
                o: Orders)
    returns (t: seq<nat>)
    requires LegalOrders(o) && tq < 4 && |vals| == 64 && p + 1 + QuantSize(wide, 64) <= |src|
    requires src[p] as int == (if wide then 16 else 0) + tq
    requires forall k :: 0 <= k < 64 ==> vals[k] == if wide then Number(src, p + 1 + 2 * k) else src[p + 1 + k]
    ensures |t| == 64 && IsInjective(o.full, 64) && forall k :: 0 <= k < 64 ==> t[o.full[k]] == vals[k]
    ensures DqtTables(src, p, 1 + QuantSize(wide, 64) + more, quant, o)
         == DqtTables(src, p + 1 + QuantSize(wide, 64), more, quant[tq := t], o)
  {
    hide Stored, Values, OrderOf, Number, Word, IsInjective;
    var rem := QuantSize(wide, 64) + more;
    var base := DqtBase(wide, rem, tq, quant);
    assert DqtCount(wide, rem) == 64 && OrderFor(o, 64) == OrderOf(o, 64) == o.full;
    ValuesTaken(src, p + 1, wide, vals);
    StoredIs(base, o.full, vals, 64);
    t := Stored(base, o.full, vals, 64);
    assert src[p] % 16 == tq && (src[p] / 16 != 0 <==> wide);
  }

  /** A Huffman table with more tables after it in the segment. */
  lemma DhtMore(src: seq<byte>, p: nat, ac: bool, th: nat, bits: seq<nat>, vals: seq<nat>, more: nat, h: HuffTables)
    requires th < 4 && |bits| == 16 && |vals| == CodeCount(bits) <= 256 && p + 17 + |vals| <= |src|
    requires src[p] as int == (if ac then 16 else 0) + th
    requires (forall i :: 0 <= i < 16 ==> bits[i] == src[p + 1 + i])
    requires forall j :: 0 <= j < |vals| ==> vals[j] == src[p + 17 + j]
    ensures DhtTables(src, p, 17 + |vals| + more, h)
         == DhtTables(src, p + 17 + |vals|, more, if ac then h.(ac := h.ac[th := TableFrom(bits, vals)])
                                                  else h.(dc := h.dc[th := TableFrom(bits, vals)]))
  {
    hide CodeCount, Sum;
    SumIsCount(bits);
    assert Nats(src[p + 1..p + 17]) == bits;
    assert Nats(src[p + 17..p + 17 + |vals|]) == vals;
    assert Zeros256(256 - |vals|) == seq(256 - |vals|, i => 0);
    assert src[p] / 16 % 2 == 1 <==> ac;
  }

  // ------------------------------------------------------------------- refusals

  /** Table numbers from 4 on, conditioning tables from 32 on, bounds the wrong way round, intervals
      of another size. */
  lemma TablesRefused(src: seq<byte>, p: nat, d: Known, o: Orders)
    requires LegalOrders(o) && LegalCond(d.cond) && p + 4 <= |src|
    ensures Number(src, p) > 2 && src[p + 2] % 16 >= 4 ==> OneMarker(src, p, 0xDB, d, o) == Halt(Refused, d, p, 0xDB)
    ensures Number(src, p) > 3 && (src[p + 2] >= 32 || (src[p + 2] < 16 && src[p + 3] % 16 > src[p + 3] / 16)) ==>
              OneMarker(src, p, 0xCC, d, o) == Halt(Refused, d, p, 0xCC)
    ensures Number(src, p) != 4 ==> OneMarker(src, p, 0xDD, d, o) == Halt(Refused, d, p, 0xDD)
  {
    hide LegalOrders, Stored, Values, OrderOf, DqtBase;
  }

  /** Frames: a second one, without rows, columns or components, or of the wrong length; scans:
      before a frame, of the wrong length, of more than four components, or of none in a sequential
      frame. */
  lemma HeadersRefused(src: seq<byte>, p: nat, m: byte, d: Known, o: Orders)
    requires LegalOrders(o) && LegalCond(d.cond) && p + 8 <= |src|
    ensures m == 0xC0 || m == 0xC1 || m == 0xC2 || m == 0xC9 || m == 0xCA ==>
              d.sawSof || Number(src, p + 3) == 0 || Number(src, p + 5) == 0 || src[p + 7] == 0
              || Number(src, p) != 8 + 3 * (src[p + 7] as nat) ==>
                OneMarker(src, p, m, d, o) == Halt(Refused, d, p, m)
    ensures !d.sawSof || Number(src, p) != 6 + 2 * (src[p + 2] as nat) || src[p + 2] > 4
            || (src[p + 2] == 0 && !d.progressive) ==>
              OneMarker(src, p, 0xDA, d, o) == Halt(Refused, d, p, 0xDA)
  {
    hide LegalOrders, SofComps, SosComps;
  }

  /** A scan with an identifier that no component of the frame has. */
  lemma UnknownRefused(src: seq<byte>, p: nat, d: Known, o: Orders)
    requires LegalOrders(o) && LegalCond(d.cond) && p + 4 <= |src| && d.sawSof
    requires 1 <= src[p + 2] <= 4 && Number(src, p) == 6 + 2 * (src[p + 2] as nat)
    requires forall i :: 0 <= i < |d.frame.comps| ==> d.frame.comps[i].id != src[p + 3] as nat
    ensures OneMarker(src, p, 0xDA, d, o) == Halt(Refused, d, p, 0xDA)
  {
    hide LegalOrders;
    assert FakeId(ScanIds(d.frame.comps, []), src[p + 3]) == src[p + 3] as nat;
  }
}
