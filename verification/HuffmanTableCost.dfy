/** What a generated table costs (jchuff.c, T.81 section K.2): when no code has to be shortened,
    every symbol's code has its length in Huffman's procedure, and no other prefix code needs
    fewer bits. */
module HuffmanTableCost {
  import opened HuffmanCode
  import opened HuffmanTree
  import opened HuffmanOptimal
  import opened HuffmanOrder
  import opened HuffmanShortest
  import HuffmanWeights

  // ------------------------------------------------------- sums over a list

  /** Sum of the entries of `w` at the listed places. */
  function SumAt(w: seq<nat>, v: seq<nat>): nat
    requires forall p :: 0 <= p < |v| ==> v[p] < |w|
  {
    if v == [] then 0 else w[v[0]] + SumAt(w, v[1..])
  }

  lemma {:induction false} SumElsewhere(w: seq<nat>, v: seq<nat>, i: nat)
    requires (forall p :: 0 <= p < |v| ==> v[p] < |w|) && i < |w| && i !in v
    ensures SumAt(w[i := 0], v) == SumAt(w, v)
  {
    if v != [] {
      assert v[0] in v && forall p :: 0 <= p < |v[1..]| ==> v[1..][p] in v;
      SumElsewhere(w, v[1..], i);
    }
  }

  /** A list of different places that has all nonzero entries sums up everything. */
  lemma {:induction false} SumAll(w: seq<nat>, v: seq<nat>)
    requires forall p :: 0 <= p < |v| ==> v[p] < |w|
    requires forall p, q :: 0 <= p < q < |v| ==> v[p] != v[q]
    requires forall j :: 0 <= j < |w| && w[j] != 0 ==> j in v
    ensures SumAt(w, v) == Total(w)
    decreases |v|
  {
    if v == [] {
      TotalNone(w);
    } else {
      var i, x := v[0], w[v[0] := 0];
      assert i !in v[1..];
      forall j | 0 <= j < |x| && x[j] != 0
        ensures j in v[1..]
      {
        assert j in v;
      }
      SumElsewhere(w, v[1..], i);
      SumAll(x, v[1..]);
      TotalUpdate(w, i, 0);
    }
  }

  lemma {:induction false} TotalNone(w: seq<nat>)
    requires forall j :: 0 <= j < |w| ==> w[j] == 0
    ensures Total(w) == 0
  {
    if w != [] {
      TotalNone(w[1..]);
    }
  }

  /** Ones for the symbols with a code of up to `k` bits. */
  function Marks(sizes: seq<nat>, k: nat): (w: seq<nat>)
    ensures |w| == |sizes| && forall j :: 0 <= j < |w| ==> w[j] == if 0 < sizes[j] <= k then 1 else 0
  {
    if sizes == [] then [] else [if 0 < sizes[0] <= k then 1 else 0] + Marks(sizes[1..], k)
  }

  lemma {:induction false} MarksTotal(sizes: seq<nat>, k: nat)
    ensures Total(Marks(sizes, k)) == Short(sizes, k)
  {
    if sizes != [] {
      MarksTotal(sizes[1..], k);
      assert Marks(sizes, k)[1..] == Marks(sizes[1..], k);
    }
  }

  function Products(f: seq<nat>, t: seq<nat>): (w: seq<nat>)
    requires |f| == |t|
    ensures |w| == |f| && forall j :: 0 <= j < |w| ==> w[j] == f[j] * t[j]
  {
    if f == [] then [] else [f[0] * t[0]] + Products(f[1..], t[1..])
  }

  lemma {:induction false} ProductsTotal(f: seq<nat>, t: seq<nat>)
    requires |f| == |t|
    ensures Total(Products(f, t)) == Cost(f, t)
  {
    if f != [] {
      ProductsTotal(f[1..], t[1..]);
      assert Products(f, t)[1..] == Products(f[1..], t[1..]);
    }
  }

  /** In a list by size the symbols with a code of up to `k` bits come first. */
  lemma {:induction false} MarksFirst(sizes: seq<nat>, v: seq<nat>, k: nat, p: nat)
    requires forall q :: 0 <= q < |v| ==> v[q] < |sizes| && sizes[v[q]] > 0
    requires forall q, r :: 0 <= q < r < |v| ==> sizes[v[q]] <= sizes[v[r]]
    requires p < |v|
    ensures p < SumAt(Marks(sizes, k), v) <==> sizes[v[p]] <= k
    decreases |v|
  {
    if p > 0 {
      MarksFirst(sizes, v[1..], k, p - 1);
    } else if sizes[v[0]] > k {
      NoMarks(sizes, v, k);
    }
  }

  lemma {:induction false} NoMarks(sizes: seq<nat>, v: seq<nat>, k: nat)
    requires forall q :: 0 <= q < |v| ==> v[q] < |sizes| && sizes[v[q]] > k
    ensures SumAt(Marks(sizes, k), v) == 0
  {
    if v != [] {
      NoMarks(sizes, v[1..], k);
    }
  }

  // ---------------------------------------------------------------- lengths

  /** No code has to be shortened. */
  ghost predicate Unlimited(f: seq<nat>)
  {
    forall s :: 0 <= s < |f| + 1 ==> HuffmanSizes(f + [1])[s] <= 16
  }

  /** The table's counts of lengths are those of the symbols' sizes: the reserved symbol had one of
      the longest codes. */
  lemma LengthsAre(f: seq<nat>, bits: seq<nat>, vals: seq<nat>, k: nat)
    requires |f| == 256 && |bits| == 17 && |vals| == 256 && IsTableOf(f, bits, vals) && Unlimited(f) && 0 < k <= 16
    requires Roots(f) > 0
    ensures bits[k] == Count(HuffmanSizes(f + [1])[..256], k)
  {
    hide HuffmanSizes, Roots, Limited, Longest, ListsSymbols, Legal, Upto;
    var sizes := HuffmanSizes(f + [1]);
    var c := LengthCounts(sizes);
    forall j | 16 < j <= MAX_CLEN
      ensures c[j] == 0
    {
      NoneOfSize(sizes, j);
    }
    LimitedSame(c, MAX_CLEN);
    ReservedCounts(f);
    assert sizes == sizes[..256] + [sizes[256]];
    CountSnoc(sizes[..256], sizes[256], k);
    SomeOfSize(sizes, 256);
    forall j | sizes[256] < j <= 16
      ensures c[j] == 0
    {
      forall s | 0 <= s < 257
        ensures sizes[s] != j
      {
        if s < 256 {
          ReservedLongest(f, s);
        }
      }
      NoneOfSize(sizes, j);
    }
    LongestIs(c, 16, sizes[256]);
  }

  lemma ReservedCounts(f: seq<nat>)
    requires Roots(f) > 0
    ensures HuffmanSizes(f + [1])[|f|] > 0
  {
    hide HuffmanSizes, Roots;
    RootsSnoc(f, 1);
    HuffmanWeights.SizePositive(f + [1], |f|);
  }

  lemma {:induction false} NoneOfSize(sizes: seq<nat>, k: nat)
    requires forall s :: 0 <= s < |sizes| ==> sizes[s] != k
    ensures Count(sizes, k) == 0
  {
    if sizes != [] {
      NoneOfSize(sizes[1..], k);
    }
  }

  lemma {:induction false} SomeOfSize(sizes: seq<nat>, s: nat)
    requires s < |sizes|
    ensures Count(sizes, sizes[s]) > 0
  {
    if s > 0 {
      SomeOfSize(sizes[1..], s - 1);
    }
  }

  /** The listed symbols are the counted ones, by size. */
  lemma ListSums(f: seq<nat>, vals: seq<nat>, w: seq<nat>)
    requires |f| == 256 && |vals| == 256 && Roots(f) <= 256 && |w| == 256
    requires ListsSymbols(f, HuffmanSizes(f + [1]), vals, Roots(f))
    requires forall j :: 0 <= j < 256 && w[j] != 0 ==> f[j] != 0
    ensures forall p :: 0 <= p < |vals[..Roots(f)]| ==> vals[..Roots(f)][p] < |w|
    ensures SumAt(w, vals[..Roots(f)]) == Total(w)
  {
    hide HuffmanSizes, Roots, Total;
    SumAll(w, vals[..Roots(f)]);
  }

  /** When no size exceeds 16, every symbol's code has the length of Huffman's procedure. */
  lemma TableLengths(f: seq<nat>, bits: seq<nat>, vals: seq<nat>, p: nat)
    requires |f| == 256 && |bits| == 17 && |vals| == 256 && IsTableOf(f, bits, vals) && Unlimited(f)
    requires p < Roots(f)
    ensures p < Upto(bits, 16) && vals[p] < 256
    ensures LenOf(bits, p, 16) == HuffmanSizes(f + [1])[vals[p]]
  {
    hide HuffmanSizes, Roots, Legal, Upto, HasLengths, Short, Count;
    var sizes, v := HuffmanSizes(f + [1])[..256], vals[..Roots(f)];
    var l := sizes[vals[p]];
    forall k | 0 < k <= 16
      ensures bits[k] == Count(sizes, k)
    {
      LengthsAre(f, bits, vals, k);
    }
    SizesCount(f);
    assert v[p] == vals[p];
    PlaceOf(f, vals, sizes, p, l);
    PlaceOf(f, vals, sizes, p, l - 1);
    UptoIsShort(bits, sizes, l);
    UptoIsShort(bits, sizes, l - 1);
    LenIs(bits, p, l, 16);
  }

  lemma SizesCount(f: seq<nat>)
    requires |f| == 256 && Roots(f) > 0 && Unlimited(f)
    ensures forall j :: 0 <= j < 256 ==> (f[j] != 0 <==> HuffmanSizes(f + [1])[j] != 0)
  {
    hide HuffmanSizes, Roots;
    SizesFill(f);
  }

  /** A symbol of up to `k` bits is among the first, as many as have such codes. */
  lemma PlaceOf(f: seq<nat>, vals: seq<nat>, sizes: seq<nat>, p: nat, k: nat)
    requires |f| == 256 && |vals| == 256 && Roots(f) <= 256 && p < Roots(f)
    requires ListsSymbols(f, HuffmanSizes(f + [1]), vals, Roots(f)) && sizes == HuffmanSizes(f + [1])[..256]
    requires forall j :: 0 <= j < 256 ==> (f[j] != 0 <==> sizes[j] != 0)
    ensures p < Short(sizes, k) <==> sizes[vals[p]] <= k
  {
    hide HuffmanSizes, Roots, Short, Total;
    var v := vals[..Roots(f)];
    ListSums(f, vals, Marks(sizes, k));
    MarksTotal(sizes, k);
    MarksFirst(sizes, v, k, p);
  }

  // ------------------------------------------------------------------- cost

  /** Bits of all the codes that the counted symbols take. */
  ghost function TableCost(f: seq<nat>, bits: seq<nat>, vals: seq<nat>, n: nat): nat
    requires |bits| == 17 && n <= Upto(bits, 16) && n <= |vals| && forall p :: 0 <= p < n ==> vals[p] < |f|
  {
    if n == 0 then 0 else TableCost(f, bits, vals, n - 1) + f[vals[n - 1]] * LenOf(bits, n - 1, 16)
  }

  lemma {:induction false} SumSnoc(w: seq<nat>, v: seq<nat>, i: nat)
    requires (forall p :: 0 <= p < |v| ==> v[p] < |w|) && i < |w|
    ensures SumAt(w, v + [i]) == SumAt(w, v) + w[i]
  {
    if v != [] {
      assert (v + [i])[1..] == v[1..] + [i];
      SumSnoc(w, v[1..], i);
    }
  }

  /** One more code: its length is the size of its symbol. */
  lemma CostNext(f: seq<nat>, bits: seq<nat>, vals: seq<nat>, w: seq<nat>, n: nat)
    requires |f| == |w| == 256 && |bits| == 17 && n < |vals| && n < Upto(bits, 16)
    requires forall p :: 0 <= p <= n ==> vals[p] < 256
    requires w[vals[n]] == f[vals[n]] * LenOf(bits, n, 16)
    requires TableCost(f, bits, vals, n) == SumAt(w, vals[..n])
    ensures TableCost(f, bits, vals, n + 1) == SumAt(w, vals[..n + 1])
  {
    hide Upto, LenOf, SumAt;
    SumSnoc(w, vals[..n], vals[n]);
    assert vals[..n + 1] == vals[..n] + [vals[n]];
  }

  lemma {:induction false} CostUpto(f: seq<nat>, bits: seq<nat>, vals: seq<nat>, n: nat)
    requires |f| == 256 && |bits| == 17 && |vals| == 256 && IsTableOf(f, bits, vals) && Unlimited(f)
    requires n <= Roots(f) && n <= 256
    ensures forall p :: 0 <= p < n ==> vals[p] < 256
    ensures n <= Upto(bits, 16)
    ensures TableCost(f, bits, vals, n) == SumAt(Products(f, HuffmanSizes(f + [1])[..256]), vals[..n])
  {
    hide HuffmanSizes, Roots, Upto, IsTableOf, Unlimited, LenOf;
    if n > 0 {
      CostUpto(f, bits, vals, n - 1);
      TableLengths(f, bits, vals, n - 1);
      CostNext(f, bits, vals, Products(f, HuffmanSizes(f + [1])[..256]), n - 1);
    }
  }

  lemma {:induction false} CostSnoc(f: seq<nat>, t: seq<nat>, c: nat, v: nat)
    requires |f| == |t|
    ensures Cost(f + [c], t + [v]) == Cost(f, t) + c * v
  {
    if f != [] {
      assert (f + [c])[1..] == f[1..] + [c] && (t + [v])[1..] == t[1..] + [v];
      CostSnoc(f[1..], t[1..], c, v);
    }
  }

  /** When no size exceeds 16, no prefix code of the symbols and the reserved one needs fewer bits
      than the table, the reserved code added. */
  lemma TableShortest(f: seq<nat>, bits: seq<nat>, vals: seq<nat>, words: seq<seq<bool>>)
    requires |f| == 256 && |bits| == 17 && |vals| == 256 && IsTableOf(f, bits, vals) && Unlimited(f)
    requires PrefixCode(f + [1], words)
    ensures forall p :: 0 <= p < Roots(f) ==> vals[p] < 256
    ensures |words| == 257
    ensures TableCost(f, bits, vals, Roots(f)) + HuffmanSizes(f + [1])[256] <= Cost(f + [1], Lengths(words))
  {
    hide HuffmanSizes, Roots, Legal, Upto, HasLengths, Cost, PrefixCode, Total, TableCost;
    var sizes := HuffmanSizes(f + [1]);
    PrefixLengths(f + [1], words);
    NoShorterCode(f + [1], words);
    CostUpto(f, bits, vals, Roots(f));
    ListSums(f, vals, Products(f, sizes[..256]));
    ProductsTotal(f, sizes[..256]);
    CostSnoc(f, sizes[..256], 1, sizes[256]);
    assert sizes == sizes[..256] + [sizes[256]];
  }
}
