/** What Huffman's procedure (jchuff.c, T.81 section K.2) promises: how many symbols must
    be counted for a long code, and that no prefix code is shorter in all. */
module HuffmanLengths {
  import opened Powers
  import opened HuffmanTree
  import opened HuffmanWeights
  import opened HuffmanOptimal

  // ---------------------------------------------------- long codes need counts

  function Fib(n: nat): nat
  {
    if n < 2 then n else Fib(n - 1) + Fib(n - 2)
  }

  lemma {:induction false} FibMonotone(m: nat, n: nat)
    requires 1 <= m <= n
    ensures Fib(m) <= Fib(n)
    decreases n
  {
    if m < n {
      FibMonotone(m, n - 1);
    }
  }

  /** The value `codesize` can grow beyond: 9227465 is the 35th Fibonacci number. */
  lemma FibLarge()
    ensures Fib(35) == 9_227_465
  {
    assert Fib(4) == 3 && Fib(5) == 5;
    assert Fib(8) == 21 && Fib(9) == 34;
    assert Fib(12) == 144 && Fib(13) == 233;
    assert Fib(16) == 987 && Fib(17) == 1597;
    assert Fib(20) == 6765 && Fib(21) == 10946;
    assert Fib(24) == 46368 && Fib(25) == 75025;
    assert Fib(28) == 317811 && Fib(29) == 514229;
    assert Fib(32) == 2178309 && Fib(33) == 3524578;
  }

  /** Counts that a code of `h` bits takes for a symbol counted `z` times, if none has
      less than `m`. */
  ghost function Needed(h: nat, z: nat, m: nat): nat
  {
    Fib(h + 1) * z + Fib(h) * m
  }

  lemma NeededFirst(z: nat, m: nat)
    ensures Needed(0, z, m) == z
  {
    assert Fib(0) == 0 && Fib(1) == 1;
  }

  lemma NeededStep(h: nat, x: nat, y: nat, z: nat, m: nat)
    requires m <= x <= y && z <= y
    ensures Needed(h + 1, z, m) <= Needed(h, x + y, y)
  {
    var p, q := Fib(h + 1), Fib(h);
    assert Fib(h + 2) == p + q;
    hide Fib;
    MulLe(z, y, p + q);
    MulLe(m, x, p);
    assert (p + q) * y == p * y + q * y;
    assert p * (x + y) == p * x + p * y;
  }

  /** Each bit of a code is a tree the symbol's tree was merged with, and these grow at
      least as the Fibonacci numbers do. */
  lemma {:induction false} DepthCosts(f: seq<nat>, s: nat, m: nat)
    requires s < |f| && f[s] != 0 && forall i :: 0 <= i < |f| && f[i] != 0 ==> m <= f[i]
    ensures Needed(HuffmanSizes(f)[s], f[s], m) <= Total(f)
    decreases Roots(f)
  {
    hide Total, Smallest, Needed, Roots, HuffmanSizes;
    if Roots(f) < 2 {
      NoBits(f, s);
      NeededFirst(f[s], m);
      TotalUpdate(f, s, 0);
    } else {
      var a, b := FirstMerge(f);
      var g := Merged(f, a, b);
      if s == a || s == b {
        MergedLeast(f, a, b);
        DepthCosts(g, a, f[b]);
        NeededStep(HuffmanSizes(g)[a], f[a], f[b], f[s], m);
      } else {
        DepthCosts(g, s, m);
      }
    }
  }

  lemma TotalOne(f: seq<nat>, s: nat)
    requires s < |f| && forall i :: 0 <= i < |f| && i != s ==> f[i] == 0
    ensures Total(f) == f[s]
  {
    TotalUpdate(f, s, 0);
    TotalNone(f[s := 0]);
  }

  lemma {:induction false} TotalNone(f: seq<nat>)
    requires forall s :: 0 <= s < |f| ==> f[s] == 0
    ensures Total(f) == 0
  {
    if f != [] {
      TotalNone(f[1..]);
    }
  }

  lemma MergedLeast(f: seq<nat>, a: nat, b: nat)
    requires a < |f| && b < |f| && a != b
    requires forall i :: 0 <= i < |f| && i != a && f[i] != 0 ==> f[b] <= f[i]
    ensures Merged(f, a, b)[a] == f[a] + f[b]
    ensures forall i :: 0 <= i < |f| && Merged(f, a, b)[i] != 0 ==> f[b] <= Merged(f, a, b)[i]
  {
  }

  /** A code of h bits takes a total of Fib(h + 2) counts. */
  lemma LongNeedsMany(f: seq<nat>, s: nat)
    requires s < |f| && HuffmanSizes(f)[s] > 0
    ensures Fib(HuffmanSizes(f)[s] + 2) <= Total(f)
  {
    hide HuffmanSizes, Total;
    if f[s] == 0 {
      UncountedSize(f, s);
    } else {
      DepthCosts(f, s, 1);
      var h := HuffmanSizes(f)[s];
      MulLe(1, f[s], Fib(h + 1));
      assert Fib(h + 2) == Fib(h + 1) + Fib(h);
    }
  }

  /** The smallest total of counts with which table generation can overflow. */
  const OVERFLOW_TOTAL: nat := 9_227_464

  /** With fewer counts, no code of the unlimited Huffman code exceeds 32 bits. */
  lemma FewFit(f: seq<nat>)
    requires Total(f) < 9_227_464
    ensures CodesFit(f) && forall s :: 0 <= s < |f| + 1 ==> HuffmanSizes(f + [1])[s] <= 32
  {
    hide HuffmanSizes, Total, Fib;
    TotalSnoc(f, 1);
    FibLarge();
    forall s | 0 <= s < |f| + 1
      ensures HuffmanSizes(f + [1])[s] <= MAX_CLEN
    {
      if HuffmanSizes(f + [1])[s] > MAX_CLEN {
        LongNeedsMany(f + [1], s);
        FibMonotone(35, HuffmanSizes(f + [1])[s] + 2);
      }
    }
  }

  // ------------------------------------------------------ the bound is attained

  /** Fibonacci counts, the larger ones for the smaller symbols. */
  function Steep(n: nat): (f: seq<nat>)
    requires n <= 256
    ensures |f| == 256 && forall s :: 0 <= s < 256 ==> f[s] == if s + n < 256 then 0 else Fib(256 - s)
  {
    seq(256, s requires 0 <= s < 256 => if s + n < 256 then 0 else Fib(256 - s))
  }

  /** After `k` merges one tree holds the `k + 1` rarest of them. */
  ghost predicate Combed(f: seq<nat>, n: nat, k: nat, top: nat)
  {
    && |f| == 257 && n <= 256 && 1 <= k <= n && top == (if k == 1 then 256 else 256 - k)
    && f[top] == Fib(k + 2)
    && forall s :: 0 <= s < 257 && s != top ==> f[s] == if 256 - n <= s < 256 - k then Fib(256 - s) else 0
  }

  /** The next merge is that of this tree and the rarest symbol left. */
  lemma CombMerges(f: seq<nat>, n: nat, k: nat, top: nat)
    requires Combed(f, n, k, top) && k < n
    ensures Roots(f) >= 2 && Smallest(f, -1) == 255 - k && Smallest(f, 255 - k) == top
    ensures Combed(Merged(f, 255 - k, top), n, k + 1, 255 - k)
  {
    hide Fib, Roots, Smallest;
    var next := 255 - k;
    FibGrows(k + 1);
    forall s | 256 - n <= s < next
      ensures Fib(k + 2) <= f[s]
    {
      FibMonotone(k + 2, 256 - s);
    }
    RootsTwo(f, next, top);
    SmallestIs(f, -1, next);
    SmallestIs(f, next, top);
  }

  lemma FibGrows(n: nat)
    requires n >= 2
    ensures 0 < Fib(n) < Fib(n + 1) && Fib(n + 2) == Fib(n + 1) + Fib(n)
  {
    FibMonotone(1, n - 1);
    FibMonotone(1, n);
  }

  lemma SmallestIs(f: seq<nat>, skip: int, c: nat)
    requires c < |f| && c != skip && f[c] != 0
    requires forall i :: 0 <= i < |f| && i != skip && f[i] != 0 ==> f[c] < f[i] || (f[c] == f[i] && i <= c)
    ensures Smallest(f, skip) == c
  {
    hide Smallest;
    assert f[c] != 0;
  }

  lemma {:induction false} CombSizes(f: seq<nat>, n: nat, k: nat, top: nat)
    requires Combed(f, n, k, top)
    ensures HuffmanSizes(f)[top] == n - k && Total(f) == Fib(n + 2) && Roots(f) == n - k + 1
    decreases n - k
  {
    hide Fib, Roots, Smallest, Total, HuffmanSizes;
    if k == n {
      FibGrows(n + 1);
      RootsUpdate(f, top, 0);
      RootsOne(f, top);
      NoBits(f, top);
      TotalOne(f, top);
    } else {
      CombMerges(f, n, k, top);
      CombSizes(Merged(f, 255 - k, top), n, k + 1, 255 - k);
      var a, b := FirstMerge(f);
    }
  }

  lemma SteepCombs(n: nat)
    requires 2 <= n <= 256
    ensures var f := Steep(n) + [1];
      && Roots(f) >= 2 && Smallest(f, -1) == 256 && Smallest(f, 256) == 255
      && Combed(Merged(f, 256, 255), n, 1, 256)
  {
    hide Roots, Smallest;
    var f := Steep(n) + [1];
    assert Fib(1) == Fib(2) == 1 && Fib(3) == 2;
    forall s | 256 - n <= s < 256
      ensures 1 <= f[s]
    {
      FibMonotone(1, 256 - s);
    }
    RootsTwo(f, 256, 255);
    SmallestIs(f, -1, 256);
    SmallestIs(f, 256, 255);
  }

  /** `n` symbols with Fibonacci counts and the reserved symbol need `n` bits. */
  lemma SteepSizes(n: nat)
    requires 2 <= n <= 256
    ensures HuffmanSizes(Steep(n) + [1])[256] == n
    ensures Total(Steep(n)) + 1 == Fib(n + 2) && Roots(Steep(n)) == n
  {
    hide Roots, Smallest, Total, HuffmanSizes, Combed, Fib, Steep, Merged;
    SteepCombs(n);
    var f := Steep(n) + [1];
    var a, b := FirstMerge(f);
    CombSizes(Merged(f, 256, 255), n, 1, 256);
    TotalSnoc(Steep(n), 1);
    RootsSnoc(Steep(n), 1);
  }

  /** 33 symbols counted 9227464 times in all can need 33 bits. */
  lemma OverflowReached()
    ensures Total(Steep(33)) == 9_227_464 && Roots(Steep(33)) == 33 && !CodesFit(Steep(33))
    ensures exists s :: 0 <= s <= 256 && HuffmanSizes(Steep(33) + [1])[s] > 32
  {
    hide Roots, Total, HuffmanSizes, Steep, Fib;
    SteepSizes(33);
    FibLarge();
  }

  // ------------------------------------------------------------ equal counts

  lemma {:induction false} CountUpdate(f: seq<nat>, i: nat, v: nat, k: nat)
    requires i < |f|
    ensures Count(f[i := v], k) == Count(f, k) - (if f[i] == k then 1 else 0) + if v == k then 1 else 0
  {
    if i == 0 {
      assert f[i := v][1..] == f[1..];
    } else {
      CountUpdate(f[1..], i - 1, v, k);
      assert f[i := v][1..] == f[1..][i - 1 := v];
    }
  }

  lemma {:induction false} CountAny(f: seq<nat>, k: nat) returns (i: nat)
    requires Count(f, k) > 0
    ensures i < |f| && f[i] == k
  {
    if f[0] == k {
      i := 0;
    } else {
      var j := CountAny(f[1..], k);
      i := j + 1;
    }
  }

  lemma {:induction false} CountNone(f: seq<nat>, k: nat)
    requires forall i :: 0 <= i < |f| ==> f[i] != k
    ensures Count(f, k) == 0
  {
    if f != [] {
      CountNone(f[1..], k);
    }
  }

  /** All counts are `w` or twice that. */
  ghost predicate Level(f: seq<nat>, w: nat)
  {
    w > 0 && forall i :: 0 <= i < |f| ==> f[i] == 0 || f[i] == w || f[i] == 2 * w
  }

  lemma {:induction false} LevelRoots(f: seq<nat>, w: nat)
    requires Level(f, w)
    ensures Roots(f) == Count(f, w) + Count(f, 2 * w)
  {
    if f != [] {
      LevelRoots(f[1..], w);
    }
  }

  lemma LevelMerge(f: seq<nat>, w: nat) returns (a: nat, b: nat)
    requires Level(f, w) && Count(f, w) >= 2
    ensures a < |f| && b < |f| && a != b && Roots(f) >= 2 && Roots(Merged(f, a, b)) < Roots(f)
    ensures f[a] == f[b] == w && Merged(f, a, b)[a] == 2 * w
    ensures forall s :: 0 <= s < |f| && s != a && s != b ==> Merged(f, a, b)[s] == f[s]
    ensures forall s :: 0 <= s < |f| ==>
              HuffmanSizes(f)[s] == if s == a || s == b then HuffmanSizes(Merged(f, a, b))[a] + 1
                                    else HuffmanSizes(Merged(f, a, b))[s]
    ensures Level(Merged(f, a, b), w) && Count(Merged(f, a, b), w) == Count(f, w) - 2
    ensures Count(Merged(f, a, b), 2 * w) == Count(f, 2 * w) + 1
  {
    hide Roots, Count, HuffmanSizes, Smallest;
    LevelRoots(f, w);
    a, b := FirstMerge(f);
    var i := CountAny(f, w);
    CountUpdate(f, a, 0, w);
    var j := CountAny(f[a := 0], w);
    var x, sum := f[a := 2 * w], 2 * w;
    assert f[a] == f[b] == w;
    CountUpdate(f, a, sum, w);
    CountUpdate(f, a, sum, sum);
    CountUpdate(x, b, 0, w);
    CountUpdate(x, b, 0, sum);
  }

  /** Two to the power of `k` equal counts, some still in halves, get codes of `k` bits. */
  lemma {:induction false} LevelSizes(f: seq<nat>, w: nat, k: nat)
    requires Level(f, w) && Count(f, w) + 2 * Count(f, 2 * w) == 2 * Pow2(k)
    ensures forall s :: 0 <= s < |f| && f[s] != 0 ==> HuffmanSizes(f)[s] == if f[s] == w then k + 1 else k
    decreases Roots(f), k
  {
    hide Roots, Count, HuffmanSizes, Pow2, Merged;
    if Count(f, w) >= 2 {
      var a, b := LevelMerge(f, w);
      LevelSizes(Merged(f, a, b), w, k);
    } else {
      forall s | 0 <= s < |f|
        ensures f[s] != w
      {
        if f[s] == w {
          CountUpdate(f, s, 0, w);
        }
      }
      CountNone(f, w);
      LevelUp(f, w, k);
      if k > 0 {
        LevelSizes(f, 2 * w, k - 1);
      }
    }
  }

  lemma LevelUp(f: seq<nat>, w: nat, k: nat)
    requires Level(f, w) && Count(f, w) == 0 && Count(f, 2 * w) == Pow2(k)
    requires forall s :: 0 <= s < |f| ==> f[s] != w
    ensures k == 0 ==> forall s :: 0 <= s < |f| ==> HuffmanSizes(f)[s] == 0
    ensures k > 0 ==> Level(f, 2 * w) && Count(f, 2 * w) + 2 * Count(f, 2 * (2 * w)) == 2 * Pow2(k - 1)
  {
    hide Roots, Count;
    LevelRoots(f, w);
    CountNone(f, 2 * (2 * w));
  }

  lemma {:induction false} SameSizes(f: seq<nat>, sizes: seq<nat>, k: nat)
    requires |f| == |sizes| && k > 0 && forall s :: 0 <= s < |f| ==> sizes[s] == if f[s] != 0 then k else 0
    ensures Count(sizes, k) == Roots(f)
  {
    if f != [] {
      SameSizes(f[1..], sizes[1..], k);
    }
  }

  /** 255 symbols counted once: one of the two kinds of counts that are lost. */
  lemma OnesLost(f: seq<nat>)
    requires |f| == 256 && Roots(f) == 255 && forall s :: 0 <= s < 256 ==> f[s] <= 1
    ensures AllEight(f) && CodesFit(f)
  {
    hide Roots, Count, HuffmanSizes;
    var g := f + [1];
    RootsSnoc(f, 1);
    LevelRoots(g, 1);
    CountNone(g, 2);
    Pow2Small();
    LevelSizes(g, 1, 7);
    forall s | 0 <= s < 257
      ensures HuffmanSizes(g)[s] == if g[s] != 0 then 8 else 0
    {
      if g[s] == 0 {
        UncountedSize(g, s);
      }
    }
    SameSizes(g, HuffmanSizes(g), 8);
  }
}
