/** Scans in segments: grouping of MCUs by the restart interval, and segments
    joined by restart markers. */
module RestartGroups {
  import opened Bytes
  import opened Coefficients

  function Concat<T>(s: seq<seq<T>>): seq<T>
  {
    if s == [] then [] else s[0] + Concat(s[1..])
  }

  /** MCUs grouped into segments: `interval` in each but the last, or all in one. */
  function Segments<T>(mcus: seq<seq<T>>, interval: nat): (segs: seq<seq<T>>)
    ensures segs != []
    decreases |mcus|
  {
    if interval == 0 || |mcus| <= interval then [Concat(mcus)]
    else [Concat(mcus[..interval])] + Segments(mcus[interval..], interval)
  }

  /** Number of MCUs in the last segment. */
  function LastCount(n: nat, interval: nat): nat
  {
    if interval == 0 || n <= interval then n else LastCount(n - interval, interval)
  }

  lemma {:induction false} ConcatSnoc<T>(s: seq<seq<T>>, t: seq<T>)
    ensures Concat(s + [t]) == Concat(s) + t
  {
    if s == [] {
      assert [t][1..] == [];
    } else {
      assert (s + [t])[1..] == s[1..] + [t];
      ConcatSnoc(s[1..], t);
    }
  }

  lemma ConcatOne<T>(t: seq<T>)
    ensures Concat([t]) == t
  {
    assert [t][1..] == [];
  }

  function Last<T>(s: seq<T>): T
    requires s != []
  {
    s[|s| - 1]
  }

  lemma {:induction false} LastCountSnoc(n: nat, interval: nat)
    ensures LastCount(n + 1, interval)
         == if 0 < interval == LastCount(n, interval) then 1 else LastCount(n, interval) + 1
    ensures 0 < interval ==> LastCount(n, interval) <= interval
  {
    if 0 < interval < n {
      LastCountSnoc(n - interval, interval);
    }
  }

  /** The MCU goes to a new segment when the last one is full. */
  function AddMcu<T>(segs: seq<seq<T>>, mcu: seq<T>, full: bool): seq<seq<T>>
    requires segs != []
  {
    if full then segs + [mcu] else segs[..|segs| - 1] + [Last(segs) + mcu]
  }

  lemma AddMcuAfter<T>(first: seq<T>, segs: seq<seq<T>>, mcu: seq<T>, full: bool)
    requires segs != []
    ensures AddMcu([first] + segs, mcu, full) == [first] + AddMcu(segs, mcu, full)
  {
    assert ([first] + segs)[..|segs|] == [first] + segs[..|segs| - 1];
  }

  lemma {:induction false} SegmentsSnoc<T>(mcus: seq<seq<T>>, mcu: seq<T>, interval: nat)
    ensures Segments(mcus + [mcu], interval)
         == AddMcu(Segments(mcus, interval), mcu, 0 < interval == LastCount(|mcus|, interval))
    decreases |mcus|
  {
    var all := mcus + [mcu];
    ConcatSnoc(mcus, mcu);
    hide Concat;
    if 0 < interval == |mcus| {
      assert all[..interval] == mcus && all[interval..] == [mcu];
      ConcatOne(mcu);
    } else if 0 < interval < |mcus| {
      assert all[..interval] == mcus[..interval] && all[interval..] == mcus[interval..] + [mcu];
      SegmentsSnoc(mcus[interval..], mcu, interval);
      AddMcuAfter(Concat(mcus[..interval]), Segments(mcus[interval..], interval), mcu,
                  interval == LastCount(|mcus|, interval));
    }
  }

  lemma GroupStep<T>(segs: seq<seq<T>>, current: seq<T>, mcu: seq<T>)
    ensures AddMcu(segs + [current], mcu, true) == segs + [current] + [[] + mcu]
    ensures AddMcu(segs + [current], mcu, false) == segs + [current + mcu]
  {
    assert [] + mcu == mcu;
    assert (segs + [current])[..|segs|] == segs;
  }

  /** Finished segments and the one in progress are those of `mcus`, and `togo`
      MCUs still fit into the latter. */
  predicate Grouped<T(==)>(mcus: seq<seq<T>>, segs: seq<seq<T>>, current: seq<T>, interval: nat, togo: nat)
  {
    && segs + [current] == Segments(mcus, interval)
    && (0 < interval ==> togo + LastCount(|mcus|, interval) == interval)
  }

  lemma GroupedStart<T>(interval: nat)
    ensures Grouped<T>([], [], [], interval, interval)
  {
  }

  lemma GroupedNext<T>(mcus: seq<seq<T>>, segs: seq<seq<T>>, current: seq<T>, interval: nat, togo: nat,
                       mcu: seq<T>)
    requires Grouped(mcus, segs, current, interval, togo)
    ensures interval == 0 ==> Grouped(mcus + [mcu], segs, current + mcu, interval, togo)
    ensures interval != 0 && togo != 0 ==> Grouped(mcus + [mcu], segs, current + mcu, interval, togo - 1)
    ensures interval != 0 && togo == 0 ==>
              Grouped(mcus + [mcu], segs + [current], [] + mcu, interval, interval - 1)
  {
    hide Segments, LastCount, AddMcu;
    SegmentsSnoc(mcus, mcu, interval);
    LastCountSnoc(|mcus|, interval);
    GroupStep(segs, current, mcu);
    assert [] + mcu == mcu;
  }

  /** The same, or a restart has been made and its first MCU is still to come. */
  predicate Ready<T(==)>(mcus: seq<seq<T>>, segs: seq<seq<T>>, current: seq<T>, interval: nat, togo: nat)
  {
    || Grouped(mcus, segs, current, interval, togo)
    || (0 < interval == togo && current == [] && segs != []
        && Grouped(mcus, segs[..|segs| - 1], Last(segs), interval, 0))
  }

  lemma ReadyRestart<T>(mcus: seq<seq<T>>, segs: seq<seq<T>>, current: seq<T>, interval: nat)
    requires 0 < interval && Ready(mcus, segs, current, interval, 0)
    ensures Ready(mcus, segs + [current], [], interval, interval)
  {
    hide Grouped;
    assert (segs + [current])[..|segs|] == segs;
  }

  lemma ReadyNext<T>(mcus: seq<seq<T>>, segs: seq<seq<T>>, current: seq<T>, interval: nat, togo: nat,
                     mcu: seq<T>)
    requires Ready(mcus, segs, current, interval, togo) && (interval == 0 || 0 < togo)
    ensures Grouped(mcus + [mcu], segs, current + mcu, interval, if interval == 0 then 0 else togo - 1)
    ensures Ready(mcus + [mcu], segs, current + mcu, interval, if interval == 0 then 0 else togo - 1)
  {
    if Grouped(mcus, segs, current, interval, togo) {
      GroupedNext(mcus, segs, current, interval, togo, mcu);
    } else {
      GroupedNext(mcus, segs[..|segs| - 1], Last(segs), interval, 0, mcu);
      assert segs[..|segs| - 1] + [Last(segs)] == segs;
    }
  }

  /** More MCUs only make the last segment longer and add others. */
  ghost predicate Prolongs<T>(a: seq<seq<T>>, b: seq<seq<T>>)
  {
    && a != [] && |a| <= |b| && b[..|a| - 1] == a[..|a| - 1] && Last(a) <= b[|a| - 1]
  }

  lemma ProlongsTrans<T>(a: seq<seq<T>>, b: seq<seq<T>>, c: seq<seq<T>>)
    requires Prolongs(a, b) && Prolongs(b, c)
    ensures Prolongs(a, c)
  {
    var n := |a| - 1;
    assert c[..n] == c[..|b| - 1][..n] == b[..|b| - 1][..n] == b[..n];
    if |a| < |b| {
      assert b[n] == b[..|b| - 1][n] == c[..|b| - 1][n] == c[n];
    }
  }

  lemma AddProlongs<T>(segs: seq<seq<T>>, mcu: seq<T>, full: bool)
    requires segs != []
    ensures Prolongs(segs, AddMcu(segs, mcu, full))
  {
  }

  lemma {:induction false} SegmentsProlong<T>(mcus: seq<seq<T>>, more: seq<seq<T>>, interval: nat)
    ensures Prolongs(Segments(mcus, interval), Segments(mcus + more, interval))
    decreases |more|
  {
    hide Segments, Prolongs, LastCount, AddMcu;
    if more == [] {
      assert mcus + more == mcus;
      ProlongsSelf(Segments(mcus, interval));
    } else {
      var all := Segments(mcus, interval);
      var full := 0 < interval == LastCount(|mcus|, interval);
      SegmentsSnoc(mcus, more[0], interval);
      AddProlongs(all, more[0], full);
      SegmentsProlong(mcus + [more[0]], more[1..], interval);
      assert mcus + [more[0]] + more[1..] == mcus + more;
      ProlongsTrans(all, Segments(mcus + [more[0]], interval), Segments(mcus + more, interval));
    }
  }

  lemma ProlongsSize<T>(a: seq<seq<T>>, b: seq<seq<T>>)
    requires Prolongs(a, b)
    ensures |a| <= |b|
  {
  }

  lemma ProlongsSelf<T>(a: seq<seq<T>>)
    requires a != []
    ensures Prolongs(a, a)
  {
  }

  lemma {:induction false} ConcatAppend<T>(a: seq<seq<T>>, b: seq<seq<T>>)
    ensures Concat(a + b) == Concat(a) + Concat(b)
  {
    if a == [] {
      assert a + b == b;
    } else {
      assert (a + b)[0] == a[0] && (a + b)[1..] == a[1..] + b;
      ConcatAppend(a[1..], b);
    }
  }

  lemma {:induction false} ConcatSegments<T>(mcus: seq<seq<T>>, interval: nat)
    ensures Concat(Segments(mcus, interval)) == Concat(mcus)
    decreases |mcus|
  {
    if interval == 0 || |mcus| <= interval {
      ConcatOne(Concat(mcus));
    } else {
      var first, rest := Concat(mcus[..interval]), Segments(mcus[interval..], interval);
      ConcatSegments(mcus[interval..], interval);
      ConcatAppend(mcus[..interval], mcus[interval..]);
      assert mcus[..interval] + mcus[interval..] == mcus;
      assert ([first] + rest)[1..] == rest;
    }
  }

  /** Lists of the same shape with the same elements are equal. */
  lemma {:induction false} ConcatSame<T>(a: seq<seq<T>>, b: seq<seq<T>>)
    requires |a| == |b| && (forall i :: 0 <= i < |a| ==> |a[i]| == |b[i]|) && Concat(a) == Concat(b)
    ensures a == b
    decreases |a|
  {
    if a != [] {
      var n := |a[0]|;
      assert a[0] == Concat(a)[..n] && b[0] == Concat(b)[..n];
      assert Concat(a[1..]) == Concat(a)[n..] && Concat(b[1..]) == Concat(b)[n..];
      ConcatSame(a[1..], b[1..]);
      assert a == [a[0]] + a[1..] && b == [b[0]] + b[1..];
    }
  }

  // ---------------------------------------------------------------- bytes

  /** Bytes of a scan of segments with the given codes; restart marker `n`
      modulo 8 comes first, `rest` follows the scan. */
  function ScanBytes(codes: seq<seq<byte>>, n: nat, rest: seq<byte>): seq<byte>
  {
    if codes == [] then rest
    else if |codes| == 1 then Stuff(codes[0]) + rest
    else Stuff(codes[0]) + [255, 0xD0 + n % 8] + ScanBytes(codes[1..], n + 1, rest)
  }

  lemma {:induction false} ScanBytesRest(codes: seq<seq<byte>>, n: nat, rest: seq<byte>)
    requires codes != []
    ensures ScanBytes(codes, n, rest) == ScanBytes(codes, n, []) + rest
    decreases |codes|
  {
    hide Stuff;
    if |codes| > 1 {
      ScanBytesRest(codes[1..], n + 1, rest);
    }
  }

  /** A finished segment and the restart marker after it. */
  function Finished(code: seq<byte>, n: nat): seq<byte>
  {
    Stuff(code) + [255, 0xD0 + n % 8]
  }

  /** Finished segments with restart numbers from `n` on. */
  function Closed(codes: seq<seq<byte>>, n: nat): seq<byte>
  {
    if codes == [] then [] else Finished(codes[0], n) + Closed(codes[1..], n + 1)
  }

  lemma {:induction false} ClosedSnoc(codes: seq<seq<byte>>, n: nat, code: seq<byte>)
    ensures Closed(codes + [code], n) == Closed(codes, n) + Finished(code, n + |codes|)
    decreases |codes|
  {
    hide Finished;
    if codes == [] {
      assert codes + [code] == [code] && [code][1..] == [];
    } else {
      assert (codes + [code])[0] == codes[0] && (codes + [code])[1..] == codes[1..] + [code];
      ClosedSnoc(codes[1..], n + 1, code);
    }
  }

  lemma {:induction false} ClosedScan(codes: seq<seq<byte>>, n: nat, code: seq<byte>, rest: seq<byte>)
    ensures ScanBytes(codes + [code], n, rest) == Closed(codes, n) + (Stuff(code) + rest)
    decreases |codes|
  {
    if codes == [] {
      assert codes + [code] == [code];
    } else {
      assert (codes + [code])[0] == codes[0] && (codes + [code])[1..] == codes[1..] + [code];
      ClosedScan(codes[1..], n + 1, code, rest);
      Regroup(Finished(codes[0], n), Closed(codes[1..], n + 1), Stuff(code) + rest);
      hide Stuff, Closed, Finished;
    }
  }
}
