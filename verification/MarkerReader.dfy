/** The marker reader (jdmarker.c): its routines as loops over the input, read_markers, and
    the whole headers read back. */
module MarkerReading {
  import opened Bytes
  import opened HuffmanCode
  import opened ArithScan
  import opened MarkerFormat

  /** What the decoder knows. */
  datatype Known = Known(sawSoi: bool, sawSof: bool, baseline: bool, progressive: bool, arith: bool,
                         frame: FrameInfo, subtractGreen: bool, quant: map<nat, seq<nat>>, huff: HuffTables,
                         cond: Conditioning,
                         restart: nat, scan: ScanInfo, scans: nat)

  /** Where read_markers stops: at a scan, at the end of the image, without input, with an
      error, or at a marker that other routines read. */
  datatype Stop = AtSos | AtEoi | Waits | Refused | Elsewhere

  /** The state after a marker, or where reading stops, at an unread marker `m` or none (0). */
  datatype Step = Go(d: Known, next: nat) | Halt(stop: Stop, d: Known, next: nat, m: byte)

  predicate IsSof(m: byte)
  {
    m == SOF0 || m == SOF1 || m == SOF2 || m == SOF9 || m == SOF10
  }

  function SofStep(src: seq<byte>, p: nat, m: byte, d: Known): Step
  {
    match ParseSof(src, p, d.sawSof)
    case Done(f, q) => Go(d.(sawSof := true, baseline := m == SOF0, progressive := m == SOF2 || m == SOF10,
                             arith := m == SOF9 || m == SOF10, frame := f), q)
    case Suspended => Halt(Waits, d, p, m)
    case Bad => Halt(Refused, d, p, m)
  }

  function SosStep(src: seq<byte>, p: nat, d: Known): Step
  {
    if !d.sawSof then Halt(Refused, d, p, SOS)
    else match ParseSos(src, p, d.progressive, d.frame.comps)
      case Done(v, q) =>
        Halt(AtSos, d.(frame := d.frame.(comps := v.0), scan := v.1,
                       scans := d.scans + if v.1.comps == [] then 0 else 1), q, 0)
      case Suspended => Halt(Waits, d, p, SOS)
      case Bad => Halt(Refused, d, p, SOS)
  }

  /** get_soi. */
  function SoiStep(p: nat, d: Known): Step
  {
    if d.sawSoi then Halt(Refused, d, p, SOI)
    else Go(d.(sawSoi := true, restart := 0, subtractGreen := false,
               cond := Conditioning(seq(16, i => 0), seq(16, i => 1), seq(16, i => 5))), p)
  }

  /** A marker `m` whose parameters are at `p`. */
  function OneMarker(src: seq<byte>, p: nat, m: byte, d: Known, o: Orders): (r: Step)
    requires LegalOrders(o) && LegalCond(d.cond) && p <= |src|
    ensures r.Go? ==> p <= r.next <= |src| && LegalCond(r.d.cond)
  {
    if m == SOI then SoiStep(p, d)
    else if IsSof(m) then SofStep(src, p, m, d)
    else if m == SOS then SosStep(src, p, d)
    else if m == EOI then Halt(AtEoi, d, p, 0)
    else if m == DAC then
      match ParseDac(src, p, d.cond)
      case Done(c, q) => Go(d.(cond := c), q)
      case Suspended => Halt(Waits, d, p, m)
      case Bad => Halt(Refused, d, p, m)
    else if m == DHT then
      match ParseDht(src, p, d.huff)
      case Done(h, q) => Go(d.(huff := h), q)
      case Suspended => Halt(Waits, d, p, m)
      case Bad => Halt(Refused, d, p, m)
    else if m == DQT then
      match ParseDqt(src, p, d.quant, o)
      case Done(t, q) => Go(d.(quant := t), q)
      case Suspended => Halt(Waits, d, p, m)
      case Bad => Halt(Refused, d, p, m)
    else if m == DRI then
      match ParseDri(src, p)
      case Done(n, q) => Go(d.(restart := n), q)
      case Suspended => Halt(Waits, d, p, m)
      case Bad => Halt(Refused, d, p, m)
    else if m == LSE then
      match ParseLse(src, p, d.sawSof, Ids(d.frame.comps))
      case Done(_, q) => Go(d.(subtractGreen := true), q)
      case Suspended => Halt(Waits, d, p, m)
      case Bad => Halt(Refused, d, p, m)
    else if 0xD0 <= m <= 0xD7 || m == 0x01 then Go(d, p)
    else if 0xE0 <= m <= 0xEF || m == 0xFE || m == 0xDC then Halt(Elsewhere, d, p, m)
    else Halt(Refused, d, p, m)
  }

  /** The marker that ends a run of other bytes is in the input. */
  lemma {:induction false} EndRest(s: seq<byte>)
    requires End(s).At?
    ensures |End(s).rest| + 2 <= |s| && s[|s| - |End(s).rest|..] == End(s).rest
    decreases |s|
  {
    FetchUsed(s);
    if Fetch(s).Data? {
      EndRest(s[Fetch(s).used..]);
    }
  }

  lemma FetchUsed(s: seq<byte>)
    ensures Fetch(s).Data? ==> 0 < Fetch(s).used <= |s|
    ensures Fetch(s).Marker? ==> 2 <= Fetch(s).used <= |s|
  {
  }

  /** read_markers, from position `p`; `m` is a marker met before, or 0. */
  ghost function ReadFrom(src: seq<byte>, p: nat, m: byte, d: Known, o: Orders): (r: Step)
    requires LegalOrders(o) && LegalCond(d.cond) && p <= |src|
    ensures r.Halt?
    decreases |src| - p, if m == 0 then 0 else 1
  {
    if m != 0 then
      var step := OneMarker(src, p, m, d, o);
      if step.Go? then ReadFrom(src, step.next, 0, step.d, o) else step
    else if !d.sawSoi then
      if p + 2 > |src| then Halt(Waits, d, p, 0)
      else if src[p] != 255 || src[p + 1] != SOI then Halt(Refused, d, p, 0)
      else
        var step := OneMarker(src, p + 2, SOI, d, o);
        if step.Go? then ReadFrom(src, step.next, 0, step.d, o) else step
    else
      var e := End(src[p..]);
      if e.Cut? then Halt(Waits, d, p, 0)
      else
        EndRest(src[p..]);
        var step := OneMarker(src, |src| - |e.rest|, e.code, d, o);
        if step.Go? then ReadFrom(src, step.next, 0, step.d, o) else step
  }

  // -------------------------------------------------------- input that comes in pieces

  lemma WordPrefix(src: seq<byte>, n: nat, p: nat)
    requires p + 2 <= n <= |src|
    ensures Word(src[..n], p) == Word(src, p)
  {
  }

  /** A list of entries that is complete, or wrong, in what there is of the input is so in
      all of it.  (The same for the other markers.) */
  lemma {:induction false} DacPrefix(src: seq<byte>, n: nat, p: nat, length: int, c: Conditioning)
    requires n <= |src| && LegalCond(c)
    ensures var r := DacEntries(src[..n], p, length, c);
      r.Suspended? || DacEntries(src, p, length, c) == r
    decreases length
  {
    if length > 0 && p + 2 <= n {
      var index, val := src[p], src[p + 1];
      if index >= 32 {
      } else if index >= 16 {
        DacPrefix(src, n, p + 2, length - 2, c.(acK := c.acK[index - 16 := val]));
      } else if val % 16 <= val / 16 {
        DacPrefix(src, n, p + 2, length - 2, c.(dcL := c.dcL[index := val % 16], dcU := c.dcU[index := val / 16]));
      }
    }
  }

  lemma {:induction false} DhtPrefix(src: seq<byte>, n: nat, p: nat, length: int, h: HuffTables)
    requires n <= |src|
    ensures var r := DhtTables(src[..n], p, length, h);
      r.Suspended? || DhtTables(src, p, length, h) == r
    decreases length
  {
    hide Sum, Nats, Zeros256;
    if length > 16 && p + 17 <= n {
      assert src[..n][p + 1..p + 17] == src[p + 1..p + 17];
      var bits := Nats(src[p + 1..p + 17]);
      var count := Sum(bits);
      if count <= 256 && count <= length - 17 && p + 17 + count <= n {
        assert src[..n][p + 17..p + 17 + count] == src[p + 17..p + 17 + count];
        var t := Table([0] + bits, Nats(src[p + 17..p + 17 + count]) + Zeros256(256 - count));
        var ac := src[p] / 16 % 2 == 1;
        var index := if ac then src[p] - 16 else src[p];
        if index < 4 {
          DhtPrefix(src, n, p + 17 + count, length - 17 - count,
                    if ac then h.(ac := h.ac[index := t]) else h.(dc := h.dc[index := t]));
        }
      }
    }
  }

  lemma {:induction false} ValuesPrefix(src: seq<byte>, n: nat, p: nat, wide: bool, count: nat)
    requires p + (if wide then 2 * count else count) <= n <= |src|
    ensures Values(src[..n], p, wide, count) == Values(src, p, wide, count)
  {
    if count > 0 {
      ValuesPrefix(src, n, p, wide, count - 1);
    }
  }

  /** Bytes of the values of the DQT table whose first byte is `pq`. */
  function DqtSize(pq: byte, rem: nat): nat
  {
    if pq / 16 != 0 then 2 * DqtCount(true, rem) else DqtCount(false, rem)
  }

  /** The first `n` bytes have all values of the next table of a DQT segment. */
  predicate DqtThere(src: seq<byte>, n: nat, p: nat, length: int)
    requires n <= |src|
  {
    length > 0 && p < n && src[p] % 16 < 4 && p + 1 + DqtSize(src[p], length - 1) <= n
  }

  /** The table that is read then. */
  function DqtTable(src: seq<byte>, p: nat, rem: nat, quant: map<nat, seq<nat>>, o: Orders): seq<nat>
    requires LegalOrders(o) && p < |src| && p + 1 + DqtSize(src[p], rem) <= |src|
  {
    var wide, k := src[p] / 16 != 0, src[p] % 16;
    var count := DqtCount(wide, rem);
    Stored(DqtBase(wide, rem, k, quant), OrderOf(o, count), Values(src, p + 1, wide, count), count)
  }

  lemma DqtUnfold(src: seq<byte>, p: nat, length: nat, quant: map<nat, seq<nat>>, o: Orders)
    requires LegalOrders(o) && DqtThere(src, |src|, p, length)
    ensures DqtTables(src, p, length, quant, o)
         == DqtTables(src, p + 1 + DqtSize(src[p], length - 1), length - 1 - DqtSize(src[p], length - 1),
                      quant[src[p] % 16 := DqtTable(src, p, length - 1, quant, o)], o)
  {
    hide LegalOrders, Stored, Values, DqtBase, IsInjective, OrderOf;
  }

  lemma DqtTablePrefix(src: seq<byte>, n: nat, p: nat, rem: nat, quant: map<nat, seq<nat>>, o: Orders)
    requires LegalOrders(o) && p < n <= |src| && p + 1 + DqtSize(src[p], rem) <= n
    ensures DqtTable(src[..n], p, rem, quant, o) == DqtTable(src, p, rem, quant, o)
  {
    hide LegalOrders, Stored, Values, DqtBase, IsInjective, OrderOf;
    ValuesPrefix(src, n, p + 1, src[p] / 16 != 0, DqtCount(src[p] / 16 != 0, rem));
  }

  lemma DqtStops(src: seq<byte>, n: nat, p: nat, length: int, quant: map<nat, seq<nat>>, o: Orders)
    requires n <= |src| && LegalOrders(o) && !DqtThere(src, n, p, length)
    ensures var r := DqtTables(src[..n], p, length, quant, o);
      r.Suspended? || DqtTables(src, p, length, quant, o) == r
  {
    hide LegalOrders, Stored, Values, DqtBase, IsInjective, OrderOf;
  }

  lemma {:induction false} DqtPrefix(src: seq<byte>, n: nat, p: nat, length: int, quant: map<nat, seq<nat>>, o: Orders)
    requires n <= |src| && LegalOrders(o)
    ensures var r := DqtTables(src[..n], p, length, quant, o);
      r.Suspended? || DqtTables(src, p, length, quant, o) == r
    decreases length
  {
    hide DqtTables, DqtTable, LegalOrders, DqtSize;
    if DqtThere(src, n, p, length) {
      var rem: nat := length - 1;
      var size := DqtSize(src[p], rem);
      DqtUnfold(src[..n], p, length, quant, o);
      DqtUnfold(src, p, length, quant, o);
      DqtTablePrefix(src, n, p, rem, quant, o);
      DqtPrefix(src, n, p + 1 + size, rem - size, quant[src[p] % 16 := DqtTable(src, p, rem, quant, o)], o);
    } else {
      DqtStops(src, n, p, length, quant, o);
    }
  }

  lemma {:induction false} SofPrefix(src: seq<byte>, n: nat, p: nat, k: nat, comps: seq<Component>)
    requires n <= |src|
    ensures var r := SofComps(src[..n], p, k, comps);
      r.Suspended? || SofComps(src, p, k, comps) == r
    decreases k
  {
    hide FakeId;
    if k > 0 && p + 3 <= n {
      var c := Component(FakeId(Ids(comps), src[p]), src[p + 1] / 16, src[p + 1] % 16, src[p + 2], 0, 0);
      SofPrefix(src, n, p + 3, k - 1, comps + [c]);
    }
  }

  lemma {:induction false} SosPrefix(src: seq<byte>, n: nat, p: nat, k: nat, comps: seq<Component>, scan: seq<nat>)
    requires n <= |src| && forall i :: 0 <= i < |scan| ==> scan[i] < |comps|
    ensures var r := SosComps(src[..n], p, k, comps, scan);
      r.Suspended? || SosComps(src, p, k, comps, scan) == r
    decreases k
  {
    hide FakeId, Find;
    if k > 0 && p < n {
      var ci := Find(comps, FakeId(ScanIds(comps, scan), src[p]));
      if ci < |comps| && p + 1 < n {
        var c := comps[ci].(dcTbl := src[p + 1] / 16, acTbl := src[p + 1] % 16);
        SosPrefix(src, n, p + 2, k - 1, comps[ci := c], scan + [ci]);
      }
    }
  }

  lemma {:induction false} FieldsPrefix(src: seq<byte>, n: nat, p: nat, fs: seq<Field>)
    requires n <= |src|
    ensures var r := ReadFields(src[..n], p, fs);
      r.Suspended? || ReadFields(src, p, fs) == r
    decreases fs
  {
    if fs != [] && p + FieldSize(fs[0]) <= n {
      FieldsPrefix(src, n, p + FieldSize(fs[0]), fs[1..]);
    }
  }

  lemma LsePrefix(src: seq<byte>, n: nat, p: nat, sawSof: bool, ids: seq<nat>)
    requires n <= |src|
    ensures var r := ParseLse(src[..n], p, sawSof, ids);
      r.Suspended? || ParseLse(src, p, sawSof, ids) == r
  {
    hide ReadFields, LseFields;
    if sawSof && |ids| >= 3 && p + 2 <= n {
      WordPrefix(src, n, p);
      FieldsPrefix(src, n, p + 2, LseFields(ids));
    }
  }

  lemma FramePrefix(src: seq<byte>, n: nat, p: nat, sawSof: bool)
    requires n <= |src|
    ensures var r := ParseSof(src[..n], p, sawSof);
      r.Suspended? || ParseSof(src, p, sawSof) == r
  {
    hide SofComps;
    if p + 8 <= n {
      SofPrefix(src, n, p + 8, src[p + 7], []);
    }
  }

  lemma ScanPrefix(src: seq<byte>, n: nat, p: nat, progressive: bool, comps: seq<Component>)
    requires n <= |src|
    ensures var r := ParseSos(src[..n], p, progressive, comps);
      r.Suspended? || ParseSos(src, p, progressive, comps) == r
  {
    hide SosComps;
    if p + 3 <= n {
      SosPrefix(src, n, p + 3, src[p + 2], comps, []);
    }
  }

  lemma TablesPrefix(src: seq<byte>, n: nat, p: nat, d: Known, o: Orders)
    requires n <= |src| && LegalOrders(o) && LegalCond(d.cond)
    ensures ParseDac(src[..n], p, d.cond).Suspended? || ParseDac(src, p, d.cond) == ParseDac(src[..n], p, d.cond)
    ensures ParseDht(src[..n], p, d.huff).Suspended? || ParseDht(src, p, d.huff) == ParseDht(src[..n], p, d.huff)
    ensures ParseDqt(src[..n], p, d.quant, o).Suspended?
            || ParseDqt(src, p, d.quant, o) == ParseDqt(src[..n], p, d.quant, o)
    ensures ParseDri(src[..n], p).Suspended? || ParseDri(src, p) == ParseDri(src[..n], p)
  {
    hide DacEntries, DhtTables, DqtTables, LegalOrders, LegalCond;
    if p + 2 <= n {
      WordPrefix(src, n, p);
      DacPrefix(src, n, p + 2, Word(src, p) - 2, d.cond);
      DhtPrefix(src, n, p + 2, Word(src, p) - 2, d.huff);
      DqtPrefix(src, n, p + 2, Word(src, p) - 2, d.quant, o);
    }
  }

  /** A step that does not wait for input is the same with more of it; one that waits has
      taken nothing. */
  predicate Settled(some: Step, all: Step, p: nat, m: byte, d: Known)
  {
    if some.Halt? && some.stop == Waits then some == Halt(Waits, d, p, m) else all == some
  }

  lemma TableMarker(src: seq<byte>, n: nat, p: nat, m: byte, d: Known, o: Orders)
    requires LegalOrders(o) && LegalCond(d.cond) && p <= n <= |src| && (m == DAC || m == DHT || m == DQT || m == DRI)
    ensures Settled(OneMarker(src[..n], p, m, d, o), OneMarker(src, p, m, d, o), p, m, d)
  {
    hide ParseDac, ParseDht, ParseDqt, ParseDri, ParseSof, ParseSos, ParseLse, LegalOrders, LegalCond;
    TablesPrefix(src, n, p, d, o);
  }

  lemma OtherMarker(src: seq<byte>, n: nat, p: nat, m: byte, d: Known, o: Orders)
    requires LegalOrders(o) && LegalCond(d.cond) && p <= n <= |src| && m != DAC && m != DHT && m != DQT && m != DRI
    ensures Settled(OneMarker(src[..n], p, m, d, o), OneMarker(src, p, m, d, o), p, m, d)
  {
    hide ParseDac, ParseDht, ParseDqt, ParseDri, ParseSof, ParseSos, ParseLse, LegalOrders, LegalCond;
    LsePrefix(src, n, p, d.sawSof, Ids(d.frame.comps));
    FramePrefix(src, n, p, d.sawSof);
    ScanPrefix(src, n, p, d.progressive, d.frame.comps);
  }

  /** Whether a marker's routine is done does not depend on what follows. */
  lemma MarkerPrefix(src: seq<byte>, n: nat, p: nat, m: byte, d: Known, o: Orders)
    requires LegalOrders(o) && LegalCond(d.cond) && p <= n <= |src|
    ensures Settled(OneMarker(src[..n], p, m, d, o), OneMarker(src, p, m, d, o), p, m, d)
  {
    hide OneMarker, Settled, LegalOrders, LegalCond;
    if m == DAC || m == DHT || m == DQT || m == DRI {
      TableMarker(src, n, p, m, d, o);
    } else {
      OtherMarker(src, n, p, m, d, o);
    }
  }

  /** The same result; a reader that waits may have skipped some bytes. */
  predicate Agrees(r: Step, s: Step)
  {
    && r.Halt? && s.Halt? && r.stop == s.stop && r.d == s.d && r.m == s.m
    && (r.stop != Waits || r.m != 0 ==> r.next == s.next)
  }

  /** Skipped bytes make no difference. */
  lemma SkippedAgrees(src: seq<byte>, start: nat, pos: nat, d: Known, o: Orders)
    requires LegalOrders(o) && LegalCond(d.cond) && d.sawSoi && start <= pos <= |src| && StillAhead(src, start, pos)
    ensures Agrees(ReadFrom(src, pos, 0, d, o), ReadFrom(src, start, 0, d, o))
  {
    hide OneMarker, LegalOrders, LegalCond, End, Payload;
  }

  // -------------------------------------------------------------------- the routines

  method Table64(base: seq<nat>, order: seq<nat>, src: seq<byte>, p: nat, wide: bool, count: nat)
    returns (table: seq<nat>)
    requires IsInjective(order, count) && |base| == 64 && p + (if wide then 2 * count else count) <= |src|
    ensures table == Stored(base, order, Values(src, p, wide, count), count)
  {
    hide Word;
    table := base;
    for i := 0 to count
      invariant table == Stored(base, order, Values(src, p, wide, count), i)
    {
      var tmp: nat := if wide then Word(src, p + 2 * i) else src[p + i];
      table := table[order[i] := tmp];
    }
  }

  /** The identifier to use for `c` after `ids`. */
  method Unseen(ids: seq<nat>, c: nat) returns (id: nat)
    ensures id == FakeId(ids, c)
  {
    id := c;
    for i := 0 to |ids|
      invariant id == c && c !in ids[..i]
    {
      if c == ids[i] {
        id := ids[0];
        for k := 1 to |ids|
          invariant id == MaxOf(ids[..k])
        {
          assert ids[..k + 1][..k] == ids[..k];
          if ids[k] > id {
            id := ids[k];
          }
        }
        assert ids[..|ids|] == ids;
        id := id + 1;
        return;
      }
      assert ids[..i + 1] == ids[..i] + [ids[i]];
    }
    assert ids[..|ids|] == ids;
  }

  method CountCodes(bits: seq<nat>) returns (count: nat)
    ensures count == Sum(bits)
  {
    count := 0;
    for i := 0 to |bits|
      invariant count == Sum(bits[..i])
    {
      assert bits[..i + 1][..i] == bits[..i];
      count := count + bits[i];
    }
    assert bits[..|bits|] == bits;
  }

  /** get_dri. */
  method GetDri(src: seq<byte>, p: nat) returns (r: Read<nat>)
    ensures r == ParseDri(src, p)
  {
    if p + 2 > |src| {
      return Suspended;
    }
    if Word(src, p) != 4 {
      return Bad;
    }
    if p + 4 > |src| {
      return Suspended;
    }
    r := Done(Word(src, p + 2), p + 4);
  }

  /** get_dac. */
  method GetDac(src: seq<byte>, start: nat, was: Conditioning) returns (r: Read<Conditioning>)
    requires LegalCond(was)
    ensures r == ParseDac(src, start, was)
  {
    if start + 2 > |src| {
      return Suspended;
    }
    var p: nat, length, cond := start + 2, Word(src, start) - 2, was;
    while length > 0
      invariant LegalCond(cond)
                && DacEntries(src, start + 2, Word(src, start) - 2, was) == DacEntries(src, p, length, cond)
      decreases length
    {
      if p + 2 > |src| {
        return Suspended;
      }
      var index: nat, val: nat := src[p], src[p + 1];
      if index >= 32 {
        return Bad;
      }
      if index >= 16 {
        cond := cond.(acK := cond.acK[index - 16 := val]);
      } else {
        if val % 16 > val / 16 {
          return Bad;
        }
        cond := cond.(dcL := cond.dcL[index := val % 16], dcU := cond.dcU[index := val / 16]);
      }
      p, length := p + 2, length - 2;
    }
    if length != 0 {
      return Bad;
    }
    r := Done(cond, p);
  }

  /** get_dht. */
  method GetDht(src: seq<byte>, start: nat, was: HuffTables) returns (r: Read<HuffTables>)
    ensures r == ParseDht(src, start, was)
  {
    hide Sum, Nats, Zeros256, Word;
    if start + 2 > |src| {
      return Suspended;
    }
    var p: nat, length, huff := start + 2, Word(src, start) - 2, was;
    while length > 16
      invariant DhtTables(src, start + 2, Word(src, start) - 2, was) == DhtTables(src, p, length, huff)
      decreases length
    {
      if p + 17 > |src| {
        return Suspended;
      }
      var bits := Nats(src[p + 1..p + 17]);
      var count := CountCodes(bits);
      if count > 256 || count > length - 17 {
        return Bad;
      }
      if p + 17 + count > |src| {
        return Suspended;
      }
      var t := Table([0] + bits, Nats(src[p + 17..p + 17 + count]) + Zeros256(256 - count));
      var isAc := src[p] / 16 % 2 == 1;
      var index: nat := if isAc then src[p] - 16 else src[p];
      if index >= 4 {
        return Bad;
      }
      huff := if isAc then huff.(ac := huff.ac[index := t]) else huff.(dc := huff.dc[index := t]);
      p, length := p + 17 + count, length - 17 - count;
    }
    if length != 0 {
      return Bad;
    }
    r := Done(huff, p);
  }

  /** get_dqt. */
  method GetDqt(src: seq<byte>, start: nat, was: map<nat, seq<nat>>, o: Orders) returns (r: Read<map<nat, seq<nat>>>)
    requires LegalOrders(o)
    ensures r == ParseDqt(src, start, was, o)
  {
    hide LegalOrders, Stored, Values, DqtBase, IsInjective, OrderOf, Word;
    if start + 2 > |src| {
      return Suspended;
    }
    var p: nat, length, quant: map<nat, seq<nat>> := start + 2, Word(src, start) - 2, was;
    while length > 0
      invariant DqtTables(src, start + 2, Word(src, start) - 2, was, o) == DqtTables(src, p, length, quant, o)
      decreases length
    {
      if p >= |src| {
        return Suspended;
      }
      var n: nat, wide := src[p] % 16, src[p] / 16 != 0;
      if n >= 4 {
        return Bad;
      }
      var rem: nat := length - 1;
      var count := DqtCount(wide, rem);
      var size := if wide then 2 * count else count;
      if p + 1 + size > |src| {
        return Suspended;
      }
      var table := Table64(DqtBase(wide, rem, n, quant), OrderOf(o, count), src, p + 1, wide, count);
      quant := quant[n := table];
      p, length := p + 1 + size, rem - size;
    }
    if length != 0 {
      return Bad;
    }
    r := Done(quant, p);
  }

  /** get_sof. */
  method GetSof(src: seq<byte>, start: nat, sawSof: bool) returns (r: Read<FrameInfo>)
    ensures r == ParseSof(src, start, sawSof)
  {
    hide FakeId, Word;
    if start + 8 > |src| {
      return Suspended;
    }
    var height, width, n: nat := Word(src, start + 3), Word(src, start + 5), src[start + 7];
    if sawSof || height == 0 || width == 0 || n == 0 || Word(src, start) - 8 != 3 * n {
      return Bad;
    }
    var p: nat, comps: seq<Component> := start + 8, [];
    for ci := 0 to n
      invariant SofComps(src, start + 8, n, []) == SofComps(src, p, n - ci, comps)
    {
      if p + 3 > |src| {
        return Suspended;
      }
      var id := Unseen(Ids(comps), src[p]);
      comps := comps + [Component(id, src[p + 1] / 16, src[p + 1] % 16, src[p + 2], 0, 0)];
      p := p + 3;
    }
    r := Done(FrameInfo(src[start + 2], height, width, comps), p);
  }

  /** The next value of an LSE segment, which must be `f`. */
  method GetField(src: seq<byte>, p: nat, f: Field, ghost rest: seq<Field>) returns (r: Read<bool>)
    ensures r.Done? ==> r.value
    ensures ReadFields(src, p, [f] + rest) == if r.Done? then ReadFields(src, r.next, rest) else r
  {
    assert ([f] + rest)[1..] == rest;
    if p + FieldSize(f) > |src| {
      return Suspended;
    }
    var tmp: nat := if f.wide then Word(src, p) else src[p];
    if tmp != f.value {
      return Bad;
    }
    r := Done(true, p + FieldSize(f));
  }

  /** get_lse. */
  method GetLse(src: seq<byte>, start: nat, sawSof: bool, ids: seq<nat>) returns (r: Read<bool>)
    ensures r == ParseLse(src, start, sawSof, ids)
  {
    hide ReadFields, Word;
    if !sawSof || |ids| < 3 {
      return Bad;
    }
    if start + 2 > |src| {
      return Suspended;
    }
    if Word(src, start) != 24 {
      return Bad;
    }
    var fs := LseFields(ids);
    r := Done(true, start + 2);
    var i := 0;
    while i < |fs| && r.Done?
      invariant i <= |fs| && (r.Done? ==> r.value)
      invariant ReadFields(src, start + 2, fs) == if r.Done? then ReadFields(src, r.next, fs[i..]) else r
    {
      assert fs[i..] == [fs[i]] + fs[i + 1..];
      r := GetField(src, r.next, fs[i], fs[i + 1..]);
      i := i + 1;
    }
    if r.Done? {
      NoFields(src, r.next);
    }
  }

  lemma NoFields(src: seq<byte>, p: nat)
    ensures ReadFields(src, p, []) == Done(true, p)
  {
  }

  /** get_sos, after a frame header. */
  method GetSos(src: seq<byte>, start: nat, progressive: bool, was: seq<Component>)
    returns (r: Read<(seq<Component>, ScanInfo)>)
    ensures r == ParseSos(src, start, progressive, was)
  {
    hide FakeId, Word, Find;
    if start + 3 > |src| {
      return Suspended;
    }
    var n: nat := src[start + 2];
    if Word(src, start) != n * 2 + 6 || n > 4 || (n == 0 && !progressive) {
      return Bad;
    }
    var p: nat, comps: seq<Component>, scan: seq<nat> := start + 3, was, [];
    for i := 0 to n
      invariant forall k :: 0 <= k < |scan| ==> scan[k] < |comps|
      invariant SosComps(src, start + 3, n, was, []) == SosComps(src, p, n - i, comps, scan)
    {
      if p >= |src| {
        return Suspended;
      }
      var id := Unseen(ScanIds(comps, scan), src[p]);
      var ci := Find(comps, id);
      if ci == |comps| {
        return Bad;
      }
      if p + 1 >= |src| {
        return Suspended;
      }
      comps := comps[ci := comps[ci].(dcTbl := src[p + 1] / 16, acTbl := src[p + 1] % 16)];
      scan := scan + [ci];
      p := p + 2;
    }
    if p + 3 > |src| {
      return Suspended;
    }
    r := Done((comps, ScanInfo(scan, src[p], src[p + 1], src[p + 2] / 16, src[p + 2] % 16)), p + 3);
  }

  // ------------------------------------------------------------------- read_markers

  class MarkerReader {
    const src: seq<byte>         // everything the source will ever supply
    const orders: Orders
    var supplied: nat            // how much of it there is
    var pos: nat
    var unread: byte             // unread_marker
    var d: Known

    ghost predicate Valid()
      reads this
    {
      LegalOrders(orders) && LegalCond(d.cond) && pos <= supplied <= |src|
    }

    constructor (src: seq<byte>, orders: Orders, d: Known)
      requires LegalOrders(orders) && LegalCond(d.cond)
      ensures Valid() && this.src == src && this.orders == orders && supplied == pos == 0 && unread == 0 && this.d == d
    {
      this.src, this.orders, supplied, pos, unread, this.d := src, orders, 0, 0, 0, d;
    }

    /** The source supplies up to `n` more bytes. */
    method Supply(n: nat)
      requires Valid()
      modifies `supplied
      ensures Valid() && supplied == if old(supplied) + n < |src| then old(supplied) + n else |src|
    {
      supplied := if supplied + n < |src| then supplied + n else |src|;
    }

    /** What reading on leads to, over the whole input. */
    ghost function Ahead(): Step
      requires Valid()
      reads this
    {
      ReadFrom(src, pos, unread, d, orders)
    }

    /** first_marker or next_marker, into unread_marker. */
    method FindMarker() returns (stop: Stop, ok: bool)
      requires Valid() && unread == 0
      modifies `pos, `unread
      ensures Valid() && old(pos) <= pos && Agrees(Ahead(), old(Ahead()))
      ensures ok ==> unread != 0 && old(pos) + 2 <= pos && Ahead() == old(Ahead())
      ensures !ok ==> unread == 0
      ensures !ok && (stop != Waits || supplied == |src|) ==> Agrees(Ahead(), Halt(stop, d, pos, 0))
    {
      hide OneMarker, LegalOrders, LegalCond, End, Payload, StillAhead;
      if !d.sawSoi {
        if pos + 2 > supplied {
          return Waits, false;
        }
        if src[pos] != 0xFF || src[pos + 1] != SOI {
          return Refused, false;
        }
        pos, unread := pos + 2, SOI;
        return AtSos, true;
      }
      var found, at, marker, discarded := NextMarker(src, supplied, pos);
      if !found {
        SkippedAgrees(src, pos, at, d, orders);
        pos := at;
        return Waits, false;
      }
      unread := marker;
      EndRest(src[pos..]);
      pos := at;
      return AtSos, true;
    }

    /** read_markers: up to the next scan, the end of the image, or a reason to stop; a call
        that runs out of the bytes supplied so far can be repeated when there are more. */
    method ReadMarkers() returns (stop: Stop)
      requires Valid()
      modifies `pos, `unread, `d
      ensures Valid()
      ensures stop != Waits || supplied == |src| ==> Agrees(Halt(stop, d, pos, unread), old(Ahead()))
      ensures stop == Waits ==> Agrees(Ahead(), old(Ahead()))
    {
      hide OneMarker, LegalOrders, LegalCond, StillAhead;
      while true
        invariant Valid() && Agrees(Ahead(), old(Ahead()))
        decreases |src| - pos, if unread == 0 then 0 else 1
      {
        if unread == 0 {
          var ok;
          stop, ok := FindMarker();
          if !ok {
            return;
          }
        }
        var step := Process(src[..supplied], pos, unread, d, orders);
        MarkerPrefix(src, supplied, pos, unread, d, orders);
        assert supplied == |src| ==> src[..supplied] == src;
        if step.Halt? {
          stop, d, pos, unread := step.stop, step.d, step.next, step.m;
          return;
        }
        d, pos, unread := step.d, step.next, 0;
      }
    }
  }

  /** The routine for a marker. */
  method Process(src: seq<byte>, p: nat, m: byte, d: Known, o: Orders) returns (step: Step)
    requires LegalOrders(o) && LegalCond(d.cond) && p <= |src|
    ensures step == OneMarker(src, p, m, d, o)
    ensures step.Go? ==> p <= step.next <= |src| && LegalCond(step.d.cond)
    ensures step.Halt? ==> step.next <= |src| && step.d.cond == d.cond
  {
    hide ParseDac, ParseDht, ParseDqt, ParseDri, ParseSof, ParseSos, ParseLse, LegalOrders;
    if m == SOI {
      return SoiStep(p, d);
    } else if IsSof(m) {
      var r := GetSof(src, p, d.sawSof);
      match r {
        case Done(f, q) =>
          return Go(d.(sawSof := true, baseline := m == SOF0, progressive := m == SOF2 || m == SOF10,
                       arith := m == SOF9 || m == SOF10, frame := f), q);
        case Suspended => return Halt(Waits, d, p, m);
        case Bad => return Halt(Refused, d, p, m);
      }
    } else if m == SOS {
      if !d.sawSof {
        return Halt(Refused, d, p, SOS);
      }
      var r := GetSos(src, p, d.progressive, d.frame.comps);
      match r {
        case Done(v, q) =>
          return Halt(AtSos, d.(frame := d.frame.(comps := v.0), scan := v.1,
                                scans := d.scans + if v.1.comps == [] then 0 else 1), q, 0);
        case Suspended => return Halt(Waits, d, p, m);
        case Bad => return Halt(Refused, d, p, m);
      }
    } else if m == EOI {
      return Halt(AtEoi, d, p, 0);
    } else if m == DAC {
      var r := GetDac(src, p, d.cond);
      match r {
        case Done(c, q) => return Go(d.(cond := c), q);
        case Suspended => return Halt(Waits, d, p, m);
        case Bad => return Halt(Refused, d, p, m);
      }
    } else if m == DHT {
      var r := GetDht(src, p, d.huff);
      match r {
        case Done(h, q) => return Go(d.(huff := h), q);
        case Suspended => return Halt(Waits, d, p, m);
        case Bad => return Halt(Refused, d, p, m);
      }
    } else if m == DQT {
      var r := GetDqt(src, p, d.quant, o);
      match r {
        case Done(t, q) => return Go(d.(quant := t), q);
        case Suspended => return Halt(Waits, d, p, m);
        case Bad => return Halt(Refused, d, p, m);
      }
    } else if m == DRI {
      var r := GetDri(src, p);
      match r {
        case Done(n, q) => return Go(d.(restart := n), q);
        case Suspended => return Halt(Waits, d, p, m);
        case Bad => return Halt(Refused, d, p, m);
      }
    } else if m == LSE {
      var r := GetLse(src, p, d.sawSof, Ids(d.frame.comps));
      match r {
        case Done(_, q) => return Go(d.(subtractGreen := true), q);
        case Suspended => return Halt(Waits, d, p, m);
        case Bad => return Halt(Refused, d, p, m);
      }
    } else if 0xD0 <= m <= 0xD7 || m == 0x01 {
      return Go(d, p);
    } else if 0xE0 <= m <= 0xEF || m == 0xFE || m == 0xDC {
      return Halt(Elsewhere, d, p, m);
    } else {
      return Halt(Refused, d, p, m);
    }
  }

  /** However the input is supplied, in the end the reader has stopped where, and knows what,
      the specification over the whole input says. */
  method ReadInPieces(src: seq<byte>, orders: Orders, d: Known, chunks: nat -> nat)
    returns (r: MarkerReader, stop: Stop)
    requires LegalOrders(orders) && LegalCond(d.cond)
    ensures fresh(r) && r.Valid() && r.src == src && r.orders == orders
    ensures Agrees(Halt(stop, r.d, r.pos, r.unread), ReadFrom(src, 0, 0, d, orders))
  {
    hide ReadFrom, LegalOrders, LegalCond;
    r := new MarkerReader(src, orders, d);
    var n := 0;
    while true
      invariant fresh(r) && r.Valid() && r.src == src && r.orders == orders
      invariant Agrees(r.Ahead(), ReadFrom(src, 0, 0, d, orders))
      decreases |src| - r.supplied
    {
      stop := r.ReadMarkers();
      if stop != Waits || r.supplied == |src| {
        return;
      }
      r.Supply(chunks(n) + 1);
      n := n + 1;
    }
  }
}
