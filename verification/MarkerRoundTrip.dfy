/** Reading back what the marker writer writes. */
module MarkerRoundTrip {
  import opened Bytes
  import opened HuffmanCode
  import opened ArithScan
  import opened MarkerFormat

  // -------------------------------------------------------------------------- DQT

  lemma ByteIs(v: nat)
    requires v < 256
    ensures ToByte(v) == v && v % 256 == v
  {
  }

  lemma OneValue(src: seq<byte>, p: nat, wide: bool, v: nat)
    requires v < (if wide then 65536 else 256) && Has(src, p, if wide then Two(v) else [ToByte(v)])
    ensures p + (if wide then 2 else 1) <= |src| && v == if wide then Word(src, p) else src[p]
  {
    hide Has, Word, Two;
    if wide {
      HasTwo(src, p, v);
    } else {
      HasByte(src, p, ToByte(v));
    }
  }

  /** The last of `n` values. */
  lemma LastValue(src: seq<byte>, p: nat, wide: bool, front: seq<nat>, v: nat)
    requires v < (if wide then 65536 else 256) && |ValueBytes(wide, front)| <= |src| - p
    requires Values(src, p, wide, |front|) == front
    requires Has(src, p + |ValueBytes(wide, front)|, if wide then Two(v) else [ToByte(v)])
    ensures p + (if wide then 2 * (|front| + 1) else |front| + 1) <= |src|
    ensures Values(src, p, wide, |front| + 1) == front + [v]
  {
    hide Has, Word, Two, ValueBytes, ToByte;
    OneValue(src, p + |ValueBytes(wide, front)|, wide, v);
  }

  lemma BytesSnoc(wide: bool, front: seq<nat>, v: nat)
    ensures ValueBytes(wide, front + [v]) == ValueBytes(wide, front) + if wide then Two(v) else [ToByte(v)]
  {
    assert (front + [v])[..|front|] == front;
  }

  lemma {:induction false} ValuesRead(src: seq<byte>, p: nat, wide: bool, vals: seq<nat>)
    requires Has(src, p, ValueBytes(wide, vals))
    requires forall i :: 0 <= i < |vals| ==> vals[i] < if wide then 65536 else 256
    ensures |ValueBytes(wide, vals)| <= |src| - p && Values(src, p, wide, |vals|) == vals
    decreases |vals|
  {
    hide Has, Word, Two, ToByte, Values, ValueBytes;
    HasSize(src, p, ValueBytes(wide, vals));
    if vals == [] {
      NoValues(src, p, wide);
    } else {
      var front, v := vals[..|vals| - 1], vals[|vals| - 1];
      assert vals == front + [v];
      BytesSnoc(wide, front, v);
      HasSplit(src, p, ValueBytes(wide, front), if wide then Two(v) else [ToByte(v)]);
      ValuesRead(src, p, wide, front);
      LastValue(src, p, wide, front, v);
    }
  }

  lemma NoValues(src: seq<byte>, p: nat, wide: bool)
    requires p <= |src|
    ensures Values(src, p, wide, 0) == []
  {
  }

  lemma {:induction false} StoredAt(base: seq<nat>, order: seq<nat>, vals: seq<nat>, n: nat, i: nat)
    requires IsInjective(order, n) && |base| == 64 && n <= |vals| && i < n
    ensures Stored(base, order, vals, n)[order[i]] == vals[i]
  {
    if i < n - 1 {
      StoredAt(base, order, vals, n - 1, i);
    }
  }

  /** The table read agrees with the one written wherever blocks have coefficients. */
  ghost predicate SameQuant(a: seq<nat>, b: seq<nat>, order: seq<nat>, n: nat)
    requires IsInjective(order, n)
  {
    |a| == |b| == 64 && forall i :: 0 <= i < n ==> a[order[i]] == b[order[i]]
  }

  /** Block sizes 1 to 8 and their numbers of coefficients. */
  predicate IsCount(n: nat)
  {
    n == 1 || n == 4 || n == 9 || n == 16 || n == 25 || n == 36 || n == 49 || n == 64
  }

  lemma BodyHeader(src: seq<byte>, p: nat, body: seq<byte>)
    requires Has(src, p, Two(|body| + 2) + body) && |body| + 2 < 65536
    ensures p + 2 <= |src| && Word(src, p) == |body| + 2 && Has(src, p + 2, body)
  {
    HasSplit(src, p, Two(|body| + 2), body);
    HasTwo(src, p, |body| + 2);
  }

  /** One table taken in, from the values that are there. */
  lemma DqtStep(src: seq<byte>, p: nat, head: byte, index: nat, wide: bool, zz: seq<nat>, n: nat, size: nat,
                quant: map<nat, seq<nat>>, o: Orders)
    requires LegalOrders(o) && index < 4 && n == |zz| && size == (if wide then 2 * n else n) && p + 1 + size <= |src|
    requires src[p] == head && head as int == index + (if wide then 16 else 0)
    requires DqtCount(wide, size) == n && Values(src, p + 1, wide, n) == zz
    ensures DqtTables(src, p, 1 + size, quant, o)
         == DqtTables(src, p + 1 + size, 0,
                      quant[index := Stored(DqtBase(wide, size, index, quant), OrderOf(o, n), zz, n)],
                      o)
  {
    hide Values, Stored, OrderOf, DqtBase, LegalOrders, DqtCount;
    assert src[p] % 16 == index && (src[p] / 16 != 0 <==> wide);
  }

  /** One table of a DQT segment that is `size` bytes long. */
  lemma DqtOne(src: seq<byte>, p: nat, index: nat, wide: bool, zz: seq<nat>, quant: map<nat, seq<nat>>, o: Orders)
    requires LegalOrders(o) && index < 4 && IsCount(|zz|) && wide == Wide(zz)
    requires Has(src, p, [ToByte(index + if wide then 16 else 0)] + ValueBytes(wide, zz))
    requires forall i :: 0 <= i < |zz| ==> zz[i] < 65536
    ensures var size := 1 + |ValueBytes(wide, zz)|;
            DqtTables(src, p, size, quant, o) ==
            Done(quant[index := Stored(DqtBase(wide, size - 1, index, quant), OrderOf(o, |zz|), zz, |zz|)], p + size)
  {
    hide Has, Values, Stored, OrderOf, DqtBase, LegalOrders, Wide, DqtTables, DqtCount;
    var head, n, size := ToByte(index + if wide then 16 else 0), |zz|, |ValueBytes(wide, zz)|;
    HasSplit(src, p, [head], ValueBytes(wide, zz));
    HasByte(src, p, head);
    HasSize(src, p + 1, ValueBytes(wide, zz));
    if !wide { Narrow(zz); }
    ValuesRead(src, p + 1, wide, zz);
    CountIs(wide, n);
    DqtStep(src, p, head, index, wide, zz, n, size, quant, o);
    DqtEnd(src, p + 1 + size, quant[index := Stored(DqtBase(wide, size, index, quant), OrderOf(o, n), zz, n)], o);
  }

  lemma HasSize(src: seq<byte>, p: nat, s: seq<byte>)
    requires Has(src, p, s)
    ensures p + |s| <= |src|
  {
  }

  lemma HasAt(src: seq<byte>, p: nat, s: seq<byte>, i: nat)
    requires Has(src, p, s) && i < |s|
    ensures p + i < |src| && src[p + i] == s[i]
  {
    assert src[p..p + |s|][i] == src[p + i];
  }

  lemma Narrow(zz: seq<nat>)
    requires !Wide(zz)
    ensures forall i :: 0 <= i < |zz| ==> zz[i] < 256
  {
  }

  lemma CountIs(wide: bool, n: nat)
    requires IsCount(n)
    ensures DqtCount(wide, if wide then 2 * n else n) == n
  {
  }

  lemma DqtEnd(src: seq<byte>, p: nat, quant: map<nat, seq<nat>>, o: Orders)
    requires LegalOrders(o)
    ensures DqtTables(src, p, 0, quant, o) == Done(quant, p)
  {
  }

  lemma DqtRead(src: seq<byte>, p: nat, index: nat, vals: seq<nat>, n: nat, quant: map<nat, seq<nat>>, o: Orders)
    requires LegalOrders(o) && index < 4 && |vals| == 64 && IsCount(n)
    requires forall i :: 0 <= i < 64 ==> vals[i] < 65536
    requires var body := DqtBody(index, Zigzagged(vals, OrderOf(o, n), n)); Has(src, p, Two(|body| + 2) + body)
    ensures var body := DqtBody(index, Zigzagged(vals, OrderOf(o, n), n)); var r := ParseDqt(src, p, quant, o);
            && r.Done? && r.next == p + 2 + |body|
            && r.value.Keys == quant.Keys + {index} && (forall k :: k in quant && k != index ==> r.value[k] == quant[k])
            && SameQuant(r.value[index], vals, OrderOf(o, n), n)
  {
    hide Has, Stored, OrderOf, DqtBase, LegalOrders, Wide, DqtTables, Word, Two, SameQuant, IsInjective, ValueBytes,
      Zigzagged;
    var order := OrderOf(o, n);
    var zz := Zigzagged(vals, order, n);
    var wide, body := Wide(zz), DqtBody(index, zz);
    BodyHeader(src, p, body);
    ZigzagSmall(vals, order, n);
    DqtOne(src, p + 2, index, wide, zz, quant, o);
    SameStored(DqtBase(wide, |body| - 1, index, quant), order, vals, n);
  }

  lemma ZigzagSmall(vals: seq<nat>, order: seq<nat>, n: nat)
    requires IsInjective(order, n) && |vals| == 64 && forall i :: 0 <= i < 64 ==> vals[i] < 65536
    ensures forall i :: 0 <= i < n ==> Zigzagged(vals, order, n)[i] < 65536
  {
  }

  lemma SameStored(base: seq<nat>, order: seq<nat>, vals: seq<nat>, n: nat)
    requires IsInjective(order, n) && |base| == |vals| == 64
    ensures SameQuant(Stored(base, order, Zigzagged(vals, order, n), n), vals, order, n)
  {
    hide Stored, Zigzagged;
    forall i | 0 <= i < n
      ensures Stored(base, order, Zigzagged(vals, order, n), n)[order[i]] == vals[order[i]]
    {
      StoredAt(base, order, Zigzagged(vals, order, n), n, i);
    }
  }

  // -------------------------------------------------------------------------- DHT

  lemma SameNats(b: seq<byte>, vals: seq<nat>)
    requires |b| == |vals| && forall i :: 0 <= i < |b| ==> b[i] == vals[i]
    ensures Nats(b) == vals
  {
  }

  lemma NatsOfBytes(vals: seq<nat>)
    requires forall i :: 0 <= i < |vals| ==> vals[i] < 256
    ensures |BytesOf(vals)| == |vals| && Nats(BytesOf(vals)) == vals
  {
    hide BytesOf, Nats;
    var b := BytesOf(vals);
    forall i | 0 <= i < |b|
      ensures b[i] == vals[i]
    {
      ByteIs(vals[i]);
    }
    SameNats(b, vals);
  }

  lemma HasSlice(src: seq<byte>, p: nat, s: seq<byte>, n: nat)
    requires Has(src, p, s) && n == |s|
    ensures p + n <= |src| && src[p..p + n] == s
  {
  }

  /** The numbers that were written as bytes are read back. */
  lemma BytesRead(src: seq<byte>, p: nat, vals: seq<nat>, n: nat)
    requires Has(src, p, BytesOf(vals)) && n == |vals| && forall i :: 0 <= i < |vals| ==> vals[i] < 256
    ensures p + n <= |src| && src[p..p + n] == BytesOf(vals) && Nats(BytesOf(vals)) == vals
  {
    hide *;
    NatsOfBytes(vals);
    HasSlice(src, p, BytesOf(vals), n);
  }

  /** A Huffman table in its file form: no symbols beyond those counted. */
  predicate LegalTable(t: Table)
  {
    && WellFormed(t) && t.bits[0] == 0 && (forall i :: 0 <= i < 17 ==> t.bits[i] < 256)
    && Sum(t.bits[1..]) <= 256
    && forall i :: 0 <= i < 256 ==> if i < Sum(t.bits[1..]) then t.vals[i] < 256 else t.vals[i] == 0
  }

  lemma DhtRead(src: seq<byte>, p: nat, index: nat, ac: bool, t: Table, h: HuffTables)
    requires index < 4 && LegalTable(t)
    requires Has(src, p, Two(|DhtBody(index, ac, t)| + 2) + DhtBody(index, ac, t))
    ensures ParseDht(src, p, h) == Done(if ac then h.(ac := h.ac[index := t]) else h.(dc := h.dc[index := t]),
                                        p + 2 + |DhtBody(index, ac, t)|)
  {
    hide Has, Sum, BytesOf, DhtTables, Word, Two;
    var body := DhtBody(index, ac, t);
    BodyHeader(src, p, body);
    DhtOne(src, p + 2, index, ac, t, h);
  }

  /** One table taken in, from the bytes that are there. */
  lemma DhtStep(src: seq<byte>, p: nat, head: byte, index: nat, ac: bool, t: Table, count: nat, h: HuffTables)
    requires index < 4 && WellFormed(t) && count == Sum(t.bits[1..]) <= 256 && p + 17 + count <= |src|
    requires src[p] == head && (head as int / 16 % 2 == 1 <==> ac) && head as int == index + if ac then 16 else 0
    requires Nats(src[p + 1..p + 17]) == t.bits[1..] && [0] + t.bits[1..] == t.bits
    requires Nats(src[p + 17..p + 17 + count]) + Zeros256(256 - count) == t.vals
    ensures DhtTables(src, p, 17 + count, h)
         == DhtTables(src, p + 17 + count, 0, if ac then h.(ac := h.ac[index := t]) else h.(dc := h.dc[index := t]))
  {
    hide Sum, Nats, Zeros256;
    var bits := Nats(src[p + 1..p + 17]);
    assert Sum(bits) == count;
    assert Table([0] + bits, Nats(src[p + 17..p + 17 + count]) + Zeros256(256 - count)) == t;
  }

  lemma DhtOne(src: seq<byte>, p: nat, index: nat, ac: bool, t: Table, h: HuffTables)
    requires index < 4 && LegalTable(t) && Has(src, p, DhtBody(index, ac, t))
    ensures DhtTables(src, p, |DhtBody(index, ac, t)|, h)
         == Done(if ac then h.(ac := h.ac[index := t]) else h.(dc := h.dc[index := t]), p + |DhtBody(index, ac, t)|)
  {
    hide Has, Sum, BytesOf, DhtTables, Nats;
    var bits := t.bits[1..];
    var count := Sum(bits);
    var head := ToByte(index + if ac then 16 else 0);
    HasSplit(src, p, [head] + BytesOf(bits), BytesOf(t.vals[..count]));
    HasSplit(src, p, [head], BytesOf(bits));
    HasByte(src, p, head);
    BytesRead(src, p + 1, bits, 16);
    BytesRead(src, p + 17, t.vals[..count], count);
    TableParts(t);
    HeadIs(index, ac);
    DhtStep(src, p, head, index, ac, t, count, h);
    DhtEnd(src, p + 17 + count, if ac then h.(ac := h.ac[index := t]) else h.(dc := h.dc[index := t]));
  }

  lemma TableParts(t: Table)
    requires LegalTable(t)
    ensures Sum(t.bits[1..]) <= 256 && [0] + t.bits[1..] == t.bits
    ensures t.vals[..Sum(t.bits[1..])] + Zeros256(256 - Sum(t.bits[1..])) == t.vals
  {
    hide Sum;
  }

  lemma DhtEnd(src: seq<byte>, p: nat, h: HuffTables)
    ensures DhtTables(src, p, 0, h) == Done(h, p)
  {
  }

  lemma HeadIs(index: nat, ac: bool)
    requires index < 4
    ensures var b: nat := ToByte(index + if ac then 16 else 0);
            (b / 16 % 2 == 1 <==> ac) && b == index + if ac then 16 else 0
  {
  }

  // -------------------------------------------------------------------------- DAC

  /** Conditioning values that a DAC segment can hold and the decoder takes. */
  predicate LegalValues(c: Conditioning)
  {
    && LegalCond(c) && (forall i :: 0 <= i < 16 ==> c.dcL[i] <= c.dcU[i] < 16)
    && forall i :: 0 <= i < 16 ==> c.acK[i] < 256
  }

  /** From table `from` on, those in use are as written and the others as before. */
  ghost predicate CondRead(r: Conditioning, was: Conditioning, c: Conditioning, dcInUse: seq<bool>, acInUse: seq<bool>,
                           from: nat)
    requires LegalCond(r) && LegalCond(was) && LegalCond(c) && |dcInUse| == |acInUse| == 16
  {
    && (forall i :: 0 <= i < 16 ==> r.dcL[i] == if from <= i && dcInUse[i] then c.dcL[i] else was.dcL[i])
    && (forall i :: 0 <= i < 16 ==> r.dcU[i] == if from <= i && dcInUse[i] then c.dcU[i] else was.dcU[i])
    && forall i :: 0 <= i < 16 ==> r.acK[i] == if from <= i && acInUse[i] then c.acK[i] else was.acK[i]
  }

  lemma NibblePair(lo: nat, hi: nat)
    requires lo < 16 && hi < 16
    ensures ToByte(lo + 16 * hi) % 16 == lo && ToByte(lo + 16 * hi) / 16 == hi
    ensures ToByte(hi * 16 + lo) % 16 == lo && ToByte(hi * 16 + lo) / 16 == hi
  {
  }

  function DcBytes(inUse: bool, c: Conditioning, i: nat): seq<byte>
    requires LegalCond(c) && i < 16
  {
    if inUse then [ToByte(i), ToByte(c.dcL[i] + 16 * c.dcU[i])] else []
  }

  function AcBytes(inUse: bool, c: Conditioning, i: nat): seq<byte>
    requires LegalCond(c) && i < 16
  {
    if inUse then [ToByte(i + 16), ToByte(c.acK[i])] else []
  }

  /** The values after those of table `i`. */
  function Taken(was: Conditioning, c: Conditioning, dc: bool, ac: bool, i: nat): (r: Conditioning)
    requires LegalCond(was) && LegalCond(c) && i < 16
    ensures LegalCond(r)
  {
    Conditioning(if dc then was.dcL[i := c.dcL[i]] else was.dcL, if dc then was.dcU[i := c.dcU[i]] else was.dcU,
                 if ac then was.acK[i := c.acK[i]] else was.acK)
  }

  lemma DcEntry(src: seq<byte>, p: nat, length: nat, i: nat, c: Conditioning, was: Conditioning, inUse: bool)
    requires LegalValues(c) && LegalCond(was) && i < 16 && |DcBytes(inUse, c, i)| <= length
    requires Has(src, p, DcBytes(inUse, c, i))
    ensures DacEntries(src, p, length, was)
         == DacEntries(src, p + |DcBytes(inUse, c, i)|, length - |DcBytes(inUse, c, i)|, Taken(was, c, inUse, false, i))
  {
    hide Has;
    if inUse {
      HasPair(src, p, ToByte(i), ToByte(c.dcL[i] + 16 * c.dcU[i]));
      NibblePair(c.dcL[i], c.dcU[i]);
    }
  }

  lemma AcEntry(src: seq<byte>, p: nat, length: nat, i: nat, c: Conditioning, was: Conditioning, inUse: bool)
    requires LegalValues(c) && LegalCond(was) && i < 16 && |AcBytes(inUse, c, i)| <= length
    requires Has(src, p, AcBytes(inUse, c, i))
    ensures DacEntries(src, p, length, was)
         == DacEntries(src, p + |AcBytes(inUse, c, i)|, length - |AcBytes(inUse, c, i)|, Taken(was, c, false, inUse, i))
  {
    hide Has;
    if inUse {
      HasPair(src, p, ToByte(i + 16), ToByte(c.acK[i]));
    }
  }

  /** The entries of table `i` are read. */
  lemma EntryPair(src: seq<byte>, p: nat, length: nat, i: nat, c: Conditioning, was: Conditioning, dc: bool, ac: bool)
    requires LegalValues(c) && LegalCond(c) && LegalCond(was) && i < 16
    requires |DcBytes(dc, c, i) + AcBytes(ac, c, i)| <= length && Has(src, p, DcBytes(dc, c, i) + AcBytes(ac, c, i))
    ensures var size := |DcBytes(dc, c, i) + AcBytes(ac, c, i)|;
            DacEntries(src, p, length, was) == DacEntries(src, p + size, length - size, Taken(was, c, dc, ac, i))
  {
    hide Has, DacEntries, DcBytes, AcBytes, LegalValues;
    HasSplit(src, p, DcBytes(dc, c, i), AcBytes(ac, c, i));
    DcEntry(src, p, length, i, c, was, dc);
    AcEntry(src, p + |DcBytes(dc, c, i)|, length - |DcBytes(dc, c, i)|, i, c, Taken(was, c, dc, false, i), ac);
  }

  lemma BodyIs(dcInUse: seq<bool>, acInUse: seq<bool>, c: Conditioning, i: nat)
    requires |dcInUse| == |acInUse| == 16 && LegalCond(c) && i < 16
    ensures DacBody(dcInUse, acInUse, c, i)
         == DcBytes(dcInUse[i], c, i) + AcBytes(acInUse[i], c, i) + DacBody(dcInUse, acInUse, c, i + 1)
  {
  }

  lemma CondNext(r: Conditioning, was: Conditioning, c: Conditioning, dcInUse: seq<bool>, acInUse: seq<bool>, i: nat)
    requires LegalCond(r) && LegalCond(was) && LegalCond(c) && |dcInUse| == |acInUse| == 16 && i < 16
    requires CondRead(r, Taken(was, c, dcInUse[i], acInUse[i], i), c, dcInUse, acInUse, i + 1)
    ensures CondRead(r, was, c, dcInUse, acInUse, i)
  {
  }

  lemma {:induction false} EntriesRead(src: seq<byte>, p: nat, dcInUse: seq<bool>, acInUse: seq<bool>, c: Conditioning,
                                       was: Conditioning, i: nat)
    requires |dcInUse| == |acInUse| == 16 && LegalValues(c) && LegalCond(c) && LegalCond(was) && i <= 16
    requires Has(src, p, DacBody(dcInUse, acInUse, c, i))
    ensures var body := DacBody(dcInUse, acInUse, c, i); var r := DacEntries(src, p, |body|, was);
            && r.Done? && r.next == p + |body| && LegalCond(r.value)
            && CondRead(r.value, was, c, dcInUse, acInUse, i)
    decreases 16 - i
  {
    hide DacEntries, LegalValues, DacBody, CondRead, Has, Taken, DcBytes, AcBytes, LegalCond;
    if i == 16 {
      NoEntries(src, p, dcInUse, acInUse, c, was);
    } else {
      BodyIs(dcInUse, acInUse, c, i);
      var own, rest := DcBytes(dcInUse[i], c, i) + AcBytes(acInUse[i], c, i), DacBody(dcInUse, acInUse, c, i + 1);
      HasSplit(src, p, own, rest);
      EntryPair(src, p, |own| + |rest|, i, c, was, dcInUse[i], acInUse[i]);
      var now := Taken(was, c, dcInUse[i], acInUse[i], i);
      EntriesRead(src, p + |own|, dcInUse, acInUse, c, now, i + 1);
      CondNext(DacEntries(src, p + |own|, |rest|, now).value, was, c, dcInUse, acInUse, i);
    }
  }

  lemma NoEntries(src: seq<byte>, p: nat, dcInUse: seq<bool>, acInUse: seq<bool>, c: Conditioning, was: Conditioning)
    requires |dcInUse| == |acInUse| == 16 && LegalCond(c) && LegalCond(was)
    ensures DacBody(dcInUse, acInUse, c, 16) == [] && DacEntries(src, p, 0, was) == Done(was, p)
    ensures CondRead(was, was, c, dcInUse, acInUse, 16)
  {
  }

  /** A DAC segment with the values of some tables. */
  lemma DacRead(src: seq<byte>, p: nat, dcInUse: seq<bool>, acInUse: seq<bool>, c: Conditioning, was: Conditioning)
    requires |dcInUse| == |acInUse| == 16 && LegalValues(c) && LegalCond(c) && LegalCond(was)
    requires var body := DacBody(dcInUse, acInUse, c, 0); Has(src, p, Two(|body| + 2) + body)
    ensures var body := DacBody(dcInUse, acInUse, c, 0); var r := ParseDac(src, p, was);
            && r.Done? && r.next == p + 2 + |body| && LegalCond(r.value)
            && CondRead(r.value, was, c, dcInUse, acInUse, 0)
  {
    hide DacEntries, LegalValues, DacBody, CondRead, Has, LegalCond, Word;
    var body := DacBody(dcInUse, acInUse, c, 0);
    BodySize(dcInUse, acInUse, c, 0);
    BodyHeader(src, p, body);
    EntriesRead(src, p + 2, dcInUse, acInUse, c, was, 0);
  }

  function Used(inUse: seq<bool>, from: nat): (n: nat)
    requires from <= |inUse|
    ensures n <= |inUse| - from
    decreases |inUse| - from
  {
    if from == |inUse| then 0 else (if inUse[from] then 1 else 0) + Used(inUse, from + 1)
  }

  lemma {:induction false} BodySize(dcInUse: seq<bool>, acInUse: seq<bool>, c: Conditioning, i: nat)
    requires |dcInUse| == |acInUse| == 16 && LegalCond(c) && i <= 16
    ensures |DacBody(dcInUse, acInUse, c, i)| == 2 * (Used(dcInUse, i) + Used(acInUse, i))
    decreases 16 - i
  {
    if i < 16 {
      BodySize(dcInUse, acInUse, c, i + 1);
    }
  }

  // -------------------------------------------------------------------------- DRI

  lemma DriRead(src: seq<byte>, p: nat, interval: nat)
    requires interval < 65536 && Has(src, p, Two(|DriBody(interval)| + 2) + DriBody(interval))
    ensures ParseDri(src, p) == Done(interval, p + 2 + |DriBody(interval)|)
  {
    BodyHeader(src, p, DriBody(interval));
    HasTwo(src, p + 2, interval);
  }

  // -------------------------------------------------------------------------- LSE

  /** Each value fits. */
  predicate FieldsFit(fs: seq<Field>)
  {
    forall i :: 0 <= i < |fs| ==> fs[i].value < if fs[i].wide then 65536 else 256
  }

  lemma {:induction false} FieldsRead(src: seq<byte>, p: nat, fs: seq<Field>, n: nat)
    requires n <= |fs| && FieldsFit(fs) && Has(src, p, FieldBytes(fs))
    ensures |FieldBytes(fs[..n])| <= |FieldBytes(fs)| && FieldBytes(fs[..n]) <= FieldBytes(fs)
    ensures ReadFields(src, p + |FieldBytes(fs[..n])|, fs[n..]) == Done(true, p + |FieldBytes(fs)|)
    decreases |fs| - n
  {
    hide Has, FieldBytes, Word;
    if n == |fs| {
      assert fs[..n] == fs && fs[n..] == [];
    } else {
      FieldsRead(src, p, fs, n + 1);
      FieldStep(fs, n);
      var at := p + |FieldBytes(fs[..n])|;
      FieldThere(src, p, fs, n);
      assert fs[n..][1..] == fs[n + 1..] && fs[n..][0] == fs[n];
    }
  }

  lemma FieldThere(src: seq<byte>, p: nat, fs: seq<Field>, n: nat)
    requires n < |fs| && FieldsFit(fs) && Has(src, p, FieldBytes(fs))
    requires FieldBytes(fs[..n]) + OneField(fs[n]) <= FieldBytes(fs)
    ensures var at := p + |FieldBytes(fs[..n])|;
      && at + FieldSize(fs[n]) <= |src|
      && (if fs[n].wide then Word(src, at) else src[at]) == fs[n].value
  {
    hide FieldBytes, Has;
    var a, b := FieldBytes(fs[..n]), OneField(fs[n]);
    var rest := FieldBytes(fs)[|a + b|..];
    assert FieldBytes(fs) == (a + b) + rest;
    HasSplit(src, p, a + b, rest);
    HasSplit(src, p, a, b);
    if fs[n].wide {
      HasTwo(src, p + |a|, fs[n].value);
    } else {
      HasByte(src, p + |a|, ToByte(fs[n].value));
    }
  }

  /** The color transform read back. */
  lemma LseRead(src: seq<byte>, p: nat, ids: seq<nat>)
    requires |ids| >= 3 && ids[0] < 256 && ids[1] < 256 && ids[2] < 256
    requires Has(src, p, Two(|FieldBytes(LseFields(ids))| + 2) + FieldBytes(LseFields(ids)))
    ensures ParseLse(src, p, true, ids) == Done(true, p + 2 + |FieldBytes(LseFields(ids))|)
  {
    hide Has, FieldBytes, Two, Word;
    LseSize(ids);
    HasSplit(src, p, Two(24), FieldBytes(LseFields(ids)));
    HasTwo(src, p, 24);
    FieldsRead(src, p + 2, LseFields(ids), 0);
    NoFieldBytes(LseFields(ids));
    assert LseFields(ids)[0..] == LseFields(ids);
  }

  // -------------------------------------------------------------------------- SOF

  predicate Distinct(s: seq<nat>)
  {
    forall i, k :: 0 <= i < k < |s| ==> s[i] != s[k]
  }

  /** A frame that a SOF segment can hold. */
  predicate LegalFrame(f: FrameInfo)
  {
    && f.precision < 256 && 0 < f.height < 65536 && 0 < f.width < 65536 && 0 < |f.comps| < 256
    && Distinct(Ids(f.comps))
    && forall i :: 0 <= i < |f.comps| ==>
         f.comps[i].id < 256 && f.comps[i].h < 16 && f.comps[i].v < 16 && f.comps[i].tq < 256
  }

  /** The components without entropy table numbers, which the scan headers give. */
  function Plain(comps: seq<Component>): (r: seq<Component>)
    ensures |r| == |comps| && forall i :: 0 <= i < |r| ==> r[i] == comps[i].(dcTbl := 0, acTbl := 0)
  {
    seq(|comps|, i requires 0 <= i < |comps| => comps[i].(dcTbl := 0, acTbl := 0))
  }

  /** The bytes of component `i` are where they should be. */
  lemma {:induction false} CompAt(src: seq<byte>, p: nat, comps: seq<Component>, i: nat)
    requires Has(src, p, CompBytes(comps)) && i < |comps|
    ensures var c := comps[i];
            Has(src, p + 3 * i, [ToByte(c.id), ToByte(c.h * 16 + c.v), ToByte(c.tq)])
    decreases |comps|
  {
    var n := |comps| - 1;
    var c := comps[n];
    var last := [ToByte(c.id), ToByte(c.h * 16 + c.v), ToByte(c.tq)];
    HasSplit(src, p, CompBytes(comps[..n]), last);
    if i < n {
      CompAt(src, p, comps[..n], i);
    }
  }

  lemma CompRead(src: seq<byte>, p: nat, c: Component)
    requires Has(src, p, [ToByte(c.id), ToByte(c.h * 16 + c.v), ToByte(c.tq)])
    requires c.id < 256 && c.h < 16 && c.v < 16 && c.tq < 256
    ensures p + 3 <= |src| && src[p] == c.id && src[p + 1] / 16 == c.h && src[p + 1] % 16 == c.v && src[p + 2] == c.tq
  {
    var s := src[p..p + 3];
    assert s[0] == src[p] && s[1] == src[p + 1] && s[2] == src[p + 2];
    NibblePair(c.v, c.h);
  }

  lemma {:induction false} CompsRead(src: seq<byte>, p: nat, f: FrameInfo, i: nat)
    requires LegalFrame(f) && i <= |f.comps| && Has(src, p, CompBytes(f.comps))
    ensures SofComps(src, p + 3 * i, |f.comps| - i, Plain(f.comps)[..i]) == Done(Plain(f.comps), p + 3 * |f.comps|)
    decreases |f.comps| - i
  {
    hide Has, SofComps, CompBytes, FakeId;
    var comps, done := f.comps, Plain(f.comps)[..i];
    if i == |comps| {
      assert done == Plain(comps);
      NoComps(src, p + 3 * i, done);
    } else {
      assert comps[i].id !in Ids(done) by {
        assert Ids(comps)[i] == comps[i].id;
        assert forall k :: 0 <= k < i ==> Ids(done)[k] == Ids(comps)[k];
      }
      assert done + [Plain(comps)[i]] == Plain(comps)[..i + 1];
      CompAt(src, p, comps, i);
      NextComp(src, p + 3 * i, |comps| - i, done, comps[i]);
      CompsRead(src, p, f, i + 1);
    }
  }

  lemma NoComps(src: seq<byte>, p: nat, done: seq<Component>)
    ensures SofComps(src, p, 0, done) == Done(done, p)
  {
  }

  lemma NextComp(src: seq<byte>, p: nat, n: nat, done: seq<Component>, c: Component)
    requires Has(src, p, [ToByte(c.id), ToByte(c.h * 16 + c.v), ToByte(c.tq)]) && 0 < n
    requires c.id < 256 && c.h < 16 && c.v < 16 && c.tq < 256 && c.id !in Ids(done)
    ensures SofComps(src, p, n, done) == SofComps(src, p + 3, n - 1, done + [c.(dcTbl := 0, acTbl := 0)])
  {
    hide Has, FakeId;
    CompRead(src, p, c);
  }

  lemma SofRead(src: seq<byte>, p: nat, f: FrameInfo)
    requires LegalFrame(f) && Has(src, p, Two(|SofBody(f)| + 2) + SofBody(f))
    ensures ParseSof(src, p, false) == Done(f.(comps := Plain(f.comps)), p + 2 + |SofBody(f)|)
  {
    hide Has, Word, SofComps, CompBytes, Two, ToByte, Plain;
    BodyHeader(src, p, SofBody(f));
    SofHeader(src, p + 2, f);
    CompsRead(src, p + 8, f, 0);
    assert Plain(f.comps)[..0] == [];
  }

  /** The bytes before the components. */
  lemma SofHeader(src: seq<byte>, p: nat, f: FrameInfo)
    requires LegalFrame(f) && Has(src, p, SofBody(f))
    ensures p + 6 <= |src| && src[p] == f.precision && Word(src, p + 1) == f.height && Word(src, p + 3) == f.width
    ensures src[p + 5] == |f.comps| && Has(src, p + 6, CompBytes(f.comps))
  {
    hide Has, Word, CompBytes, Two, ToByte;
    var head := [ToByte(f.precision)];
    HasSplit(src, p, head + Two(f.height) + Two(f.width) + [ToByte(|f.comps|)], CompBytes(f.comps));
    HasSplit(src, p, head + Two(f.height) + Two(f.width), [ToByte(|f.comps|)]);
    HasSplit(src, p, head + Two(f.height), Two(f.width));
    HasSplit(src, p, head, Two(f.height));
    HasByte(src, p, ToByte(f.precision));
    HasTwo(src, p + 1, f.height);
    HasTwo(src, p + 3, f.width);
    HasByte(src, p + 5, ToByte(|f.comps|));
    ByteIs(f.precision);
    ByteIs(|f.comps|);
  }

  /** On any bytes, the identifiers that get_sof accepts are pairwise distinct. */
  lemma {:induction false} SofDistinct(src: seq<byte>, p: nat, n: nat, comps: seq<Component>)
    requires Distinct(Ids(comps))
    ensures var r := SofComps(src, p, n, comps);
            r.Done? ==> Distinct(Ids(r.value)) && |r.value| == |comps| + n
    decreases n
  {
    if n != 0 && p + 3 <= |src| {
      var id := FakeId(Ids(comps), src[p]);
      var c := Component(id, src[p + 1] / 16, src[p + 1] % 16, src[p + 2], 0, 0);
      assert Ids(comps + [c]) == Ids(comps) + [id];
      SofDistinct(src, p + 3, n - 1, comps + [c]);
    }
  }

  lemma SofAccepts(src: seq<byte>, p: nat, sawSof: bool)
    ensures var r := ParseSof(src, p, sawSof);
            r.Done? ==> Distinct(Ids(r.value.comps)) && 0 < |r.value.comps| && 0 < r.value.height && 0 < r.value.width
  {
    if p + 8 <= |src| {
      SofDistinct(src, p + 8, src[p + 7], []);
    }
  }

  // -------------------------------------------------------------------------- SOS

  /** A scan of a frame that a SOS segment can hold. */
  predicate LegalScan(comps: seq<Component>, s: ScanInfo)
  {
    && 1 <= |s.comps| <= 4 && Distinct(s.comps) && Distinct(Ids(comps))
    && (forall i :: 0 <= i < |s.comps| ==> s.comps[i] < |comps|)
    && (forall i :: 0 <= i < |comps| ==> comps[i].id < 256 && comps[i].dcTbl < 16 && comps[i].acTbl < 16)
    && s.ss < 256 && s.se < 256 && s.ah < 16 && s.al < 16
  }

  /** The table numbers that come with a component: those the scan uses, 0 for the others. */
  function Specified(c: Component, s: ScanInfo, now: Component): Component
  {
    now.(dcTbl := if s.ss == 0 && s.ah == 0 then c.dcTbl else 0, acTbl := if s.se != 0 then c.acTbl else 0)
  }

  /** The decoder's components after the first `n` of the scan; `comps` are the encoder's. */
  function AfterSos(now: seq<Component>, comps: seq<Component>, s: ScanInfo, n: nat): (r: seq<Component>)
    requires |now| == |comps| && n <= |s.comps| && forall i :: 0 <= i < |s.comps| ==> s.comps[i] < |comps|
    ensures |r| == |now| && forall k :: 0 <= k < |r| ==> r[k].id == now[k].id
  {
    if n == 0 then now
    else
      var ci := s.comps[n - 1];
      AfterSos(now, comps, s, n - 1)[ci := Specified(comps[ci], s, AfterSos(now, comps, s, n - 1)[ci])]
  }

  lemma FindIs(comps: seq<Component>, ci: nat)
    requires Distinct(Ids(comps)) && ci < |comps|
    ensures Find(comps, comps[ci].id) == ci
  {
    assert Ids(comps)[ci] == comps[ci].id;
    var i := Find(comps, comps[ci].id);
    assert i < |comps| ==> Ids(comps)[i] == comps[ci].id;
  }

  lemma SameIds(a: seq<Component>, b: seq<Component>)
    requires |a| == |b| && forall k :: 0 <= k < |a| ==> a[k].id == b[k].id
    ensures Ids(a) == Ids(b)
  {
  }

  /** A component met for the first time in the scan is found under its own identifier. */
  lemma NewInScan(comps: seq<Component>, scan: seq<nat>, n: nat)
    requires Distinct(Ids(comps)) && Distinct(scan) && n < |scan|
    requires forall i :: 0 <= i < |scan| ==> scan[i] < |comps|
    ensures FakeId(ScanIds(comps, scan[..n]), comps[scan[n]].id) == comps[scan[n]].id
  {
    var ids := ScanIds(comps, scan[..n]);
    forall i | 0 <= i < n
      ensures ids[i] != comps[scan[n]].id
    {
      assert ids[i] == Ids(comps)[scan[i]] && comps[scan[n]].id == Ids(comps)[scan[n]];
      assert scan[i] != scan[n];
    }
  }

  lemma TableByteIs(c: Component, s: ScanInfo)
    requires c.dcTbl < 16 && c.acTbl < 16
    ensures var b: nat := TableByte(c, s);
            b / 16 == (if s.ss == 0 && s.ah == 0 then c.dcTbl else 0) && b % 16 == if s.se != 0 then c.acTbl else 0
  {
    NibblePair(if s.se != 0 then c.acTbl else 0, if s.ss == 0 && s.ah == 0 then c.dcTbl else 0);
  }

  lemma {:induction false} SosCompAt(src: seq<byte>, p: nat, comps: seq<Component>, s: ScanInfo, n: nat, i: nat)
    requires i < n <= |s.comps| && forall k :: 0 <= k < |s.comps| ==> s.comps[k] < |comps|
    requires Has(src, p, SosCompBytes(comps, s, n))
    ensures var c := comps[s.comps[i]]; Has(src, p + 2 * i, [ToByte(c.id), TableByte(c, s)])
  {
    hide Has, TableByte, ToByte;
    var c := comps[s.comps[n - 1]];
    HasSplit(src, p, SosCompBytes(comps, s, n - 1), [ToByte(c.id), TableByte(c, s)]);
    if i < n - 1 {
      SosCompAt(src, p, comps, s, n - 1, i);
    }
  }

  /** One component specification. */
  lemma NextSosComp(src: seq<byte>, p: nat, n: nat, now: seq<Component>, comps: seq<Component>, s: ScanInfo, i: nat)
    requires LegalScan(comps, s) && i < |s.comps| && 0 < n && |now| == |comps| && Ids(now) == Ids(comps)
    requires var c := comps[s.comps[i]]; Has(src, p, [ToByte(c.id), TableByte(c, s)])
    ensures var ci := s.comps[i];
            SosComps(src, p, n, now, s.comps[..i]) ==
            SosComps(src, p + 2, n - 1, now[ci := Specified(comps[ci], s, now[ci])], s.comps[..i + 1])
  {
    hide Has, FakeId, TableByte, Find, Distinct;
    var ci := s.comps[i];
    var c := comps[ci];
    assert Ids(now)[ci] == Ids(comps)[ci];
    HasPair(src, p, ToByte(c.id), TableByte(c, s));
    ByteIs(c.id);
    TableByteIs(c, s);
    NewInScan(now, s.comps, i);
    FindIs(now, ci);
    assert s.comps[..i] + [ci] == s.comps[..i + 1];
  }

  lemma {:induction false} SosCompsRead(src: seq<byte>, p: nat, now: seq<Component>, comps: seq<Component>, s: ScanInfo,
                                        i: nat)
    requires LegalScan(comps, s) && i <= |s.comps| && |now| == |comps| && Ids(now) == Ids(comps)
    requires Has(src, p, SosCompBytes(comps, s, |s.comps|))
    ensures SosComps(src, p + 2 * i, |s.comps| - i, AfterSos(now, comps, s, i), s.comps[..i])
         == Done((AfterSos(now, comps, s, |s.comps|), s.comps), p + 2 * |s.comps|)
    decreases |s.comps| - i
  {
    hide Has, SosComps, SosCompBytes, Specified, Distinct;
    var mid := AfterSos(now, comps, s, i);
    if i == |s.comps| {
      assert s.comps[..i] == s.comps;
      NoSosComps(src, p + 2 * i, mid, s.comps);
    } else {
      SosCompAt(src, p, comps, s, |s.comps|, i);
      SameIds(mid, now);
      NextSosComp(src, p + 2 * i, |s.comps| - i, mid, comps, s, i);
      SosCompsRead(src, p, now, comps, s, i + 1);
    }
  }

  lemma NoSosComps(src: seq<byte>, p: nat, comps: seq<Component>, scan: seq<nat>)
    requires forall i :: 0 <= i < |scan| ==> scan[i] < |comps|
    ensures SosComps(src, p, 0, comps, scan) == Done((comps, scan), p)
  {
  }

  /** The bytes around the component specifications. */
  lemma SosAround(src: seq<byte>, p: nat, comps: seq<Component>, s: ScanInfo)
    requires LegalScan(comps, s) && Has(src, p, SosBody(comps, s))
    ensures var q := p + 1 + 2 * |s.comps|;
            && q + 3 <= |src| && src[p] == |s.comps| && Has(src, p + 1, SosCompBytes(comps, s, |s.comps|))
            && src[q] == s.ss && src[q + 1] == s.se && src[q + 2] / 16 == s.ah && src[q + 2] % 16 == s.al
  {
    hide Has, SosCompBytes, Distinct;
    var tail := [ToByte(s.ss), ToByte(s.se), ToByte(s.ah * 16 + s.al)];
    var q := p + 1 + 2 * |s.comps|;
    HasSplit(src, p, [ToByte(|s.comps|)] + SosCompBytes(comps, s, |s.comps|), tail);
    HasSplit(src, p, [ToByte(|s.comps|)], SosCompBytes(comps, s, |s.comps|));
    HasByte(src, p, ToByte(|s.comps|));
    HasSize(src, q, tail);
    HasAt(src, q, tail, 0);
    HasAt(src, q, tail, 1);
    HasAt(src, q, tail, 2);
    NibblePair(s.al, s.ah);
  }

  /** The scan header read back: the same components, the table numbers the scan uses, and
      its parameters. */
  lemma SosRead(src: seq<byte>, p: nat, progressive: bool, now: seq<Component>, comps: seq<Component>, s: ScanInfo)
    requires LegalScan(comps, s) && |now| == |comps| && Ids(now) == Ids(comps)
    requires Has(src, p, Two(|SosBody(comps, s)| + 2) + SosBody(comps, s))
    ensures ParseSos(src, p, progressive, now)
         == Done((AfterSos(now, comps, s, |s.comps|), s), p + 2 + |SosBody(comps, s)|)
    ensures forall i :: 0 <= i < |s.comps| ==> var c := AfterSos(now, comps, s, |s.comps|)[s.comps[i]];
              && (s.ss == 0 && s.ah == 0 ==> c.dcTbl == comps[s.comps[i]].dcTbl)
              && (s.se != 0 ==> c.acTbl == comps[s.comps[i]].acTbl)
  {
    hide Has, SosComps, SosCompBytes, Word, Two, Distinct, AfterSos;
    BodyHeader(src, p, SosBody(comps, s));
    SosAround(src, p + 2, comps, s);
    SosCompsRead(src, p + 3, now, comps, s, 0);
    assert s.comps[..0] == [];
    NoneYet(now, comps, s);
    forall i | 0 <= i < |s.comps|
      ensures var c := AfterSos(now, comps, s, |s.comps|)[s.comps[i]];
              && (s.ss == 0 && s.ah == 0 ==> c.dcTbl == comps[s.comps[i]].dcTbl)
              && (s.se != 0 ==> c.acTbl == comps[s.comps[i]].acTbl)
    {
      AfterSosAt(now, comps, s, |s.comps|, i);
    }
  }

  lemma NoneYet(now: seq<Component>, comps: seq<Component>, s: ScanInfo)
    requires |now| == |comps| && forall i :: 0 <= i < |s.comps| ==> s.comps[i] < |comps|
    ensures AfterSos(now, comps, s, 0) == now
  {
  }

  lemma {:induction false} AfterSosAt(now: seq<Component>, comps: seq<Component>, s: ScanInfo, n: nat, i: nat)
    requires |now| == |comps| && i < n <= |s.comps| && Distinct(s.comps)
    requires forall k :: 0 <= k < |s.comps| ==> s.comps[k] < |comps|
    ensures AfterSos(now, comps, s, n)[s.comps[i]]
         == Specified(comps[s.comps[i]], s, AfterSos(now, comps, s, n)[s.comps[i]])
  {
    if i < n - 1 {
      AfterSosAt(now, comps, s, n - 1, i);
      assert s.comps[i] != s.comps[n - 1];
    }
  }

  /** On any bytes, the components that get_sos accepts are pairwise distinct. */
  lemma {:induction false} SosDistinct(src: seq<byte>, p: nat, n: nat, comps: seq<Component>, scan: seq<nat>)
    requires (forall i :: 0 <= i < |scan| ==> scan[i] < |comps|) && Distinct(ScanIds(comps, scan))
    ensures var r := SosComps(src, p, n, comps, scan);
            r.Done? ==>
              && |r.value.0| == |comps| && |r.value.1| == |scan| + n
              && (forall i :: 0 <= i < |r.value.1| ==> r.value.1[i] < |comps|)
              && Distinct(ScanIds(r.value.0, r.value.1)) && Distinct(r.value.1)
    decreases n
  {
    hide FakeId, Find;
    if n == 0 {
      DistinctIndexes(comps, scan);
    } else if p + 1 < |src| {
      var id := FakeId(ScanIds(comps, scan), src[p]);
      var ci := Find(comps, id);
      if ci < |comps| {
        var next := comps[ci := comps[ci].(dcTbl := src[p + 1] / 16, acTbl := src[p + 1] % 16)];
        assert ScanIds(next, scan + [ci]) == ScanIds(comps, scan) + [id];
        SosDistinct(src, p + 2, n - 1, next, scan + [ci]);
      }
    }
  }

  lemma DistinctIndexes(comps: seq<Component>, scan: seq<nat>)
    requires (forall i :: 0 <= i < |scan| ==> scan[i] < |comps|) && Distinct(ScanIds(comps, scan))
    ensures Distinct(scan)
  {
    forall i, k | 0 <= i < k < |scan|
      ensures scan[i] != scan[k]
    {
      assert ScanIds(comps, scan)[i] != ScanIds(comps, scan)[k];
    }
  }

  lemma SosAccepts(src: seq<byte>, p: nat, progressive: bool, comps: seq<Component>)
    ensures var r := ParseSos(src, p, progressive, comps);
            r.Done? ==>
              && |r.value.0| == |comps| && |r.value.1.comps| <= 4 && Distinct(r.value.1.comps)
              && (forall i :: 0 <= i < |r.value.1.comps| ==> r.value.1.comps[i] < |comps|)
              && (r.value.1.comps == [] ==> progressive)
  {
    if p + 3 <= |src| {
      SosDistinct(src, p + 3, src[p + 2], comps, []);
    }
  }
}
