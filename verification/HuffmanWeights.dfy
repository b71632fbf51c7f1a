/** The words that the codes of a list of sizes take, and that Huffman's procedure leaves none
    (jchuff.c, T.81 section K.2). */
module HuffmanWeights {
  import opened Powers
  import opened HuffmanTree

  /** The two trees that are merged first, and what is left of the counts. */
  lemma FirstMerge(f: seq<nat>) returns (a: nat, b: nat)
    requires Roots(f) >= 2
    ensures a == Smallest(f, -1) && b == Smallest(f, a)
    ensures a < |f| && b < |f| && a != b && 0 < f[a] <= f[b]
    ensures forall i :: 0 <= i < |f| && i != a && f[i] != 0 ==> f[b] <= f[i]
    ensures Total(Merged(f, a, b)) == Total(f) && Roots(Merged(f, a, b)) == Roots(f) - 1
    ensures forall s :: 0 <= s < |f| ==>
              HuffmanSizes(f)[s] == if s == a || s == b then HuffmanSizes(Merged(f, a, b))[a] + 1
                                    else HuffmanSizes(Merged(f, a, b))[s]
  {
    hide Total, Merged;
    TwoSmallest(f);
    a := Smallest(f, -1);
    b := Smallest(f, a);
    MergeCounts(f, a, b);
  }

  lemma NoBits(f: seq<nat>, s: nat)
    requires Roots(f) < 2 && s < |f|
    ensures HuffmanSizes(f)[s] == 0
  {
  }

  /** No counted symbol has more than `n` bits. */
  ghost predicate Within(f: seq<nat>, t: seq<nat>, n: nat)
  {
    |f| == |t| && forall s :: 0 <= s < |f| && f[s] != 0 ==> t[s] <= n
  }

  /** What the codes of the counted symbols take of the 2^n words of `n` bits. */
  function Weight(f: seq<nat>, t: seq<nat>, n: nat): nat
    requires Within(f, t, n)
  {
    if f == [] then 0
    else
      assert forall s :: 0 <= s < |f| - 1 ==> f[1..][s] == f[s + 1] && t[1..][s] == t[s + 1];
      (if f[0] != 0 then Pow2(n - t[0]) else 0) + Weight(f[1..], t[1..], n)
  }

  /** The share of one symbol. */
  function Words(c: nat, v: nat, n: nat): nat
    requires c != 0 ==> v <= n
  {
    if c != 0 then Pow2(n - v) else 0
  }

  lemma WithinSet(f: seq<nat>, t: seq<nat>, n: nat, s: nat, c: nat, v: nat)
    requires Within(f, t, n) && s < |f| && (c != 0 ==> v <= n)
    ensures Within(f[s := c], t[s := v], n)
  {
  }

  lemma {:induction false} WeightSet(f: seq<nat>, t: seq<nat>, n: nat, s: nat, c: nat, v: nat)
    requires Within(f, t, n) && s < |f| && (c != 0 ==> v <= n)
    ensures Within(f[s := c], t[s := v], n)
    ensures Weight(f[s := c], t[s := v], n) == Weight(f, t, n) - Words(f[s], t[s], n) + Words(c, v, n)
  {
    WithinSet(f, t, n, s, c, v);
    if s == 0 {
      assert f[s := c][1..] == f[1..] && t[s := v][1..] == t[1..];
    } else {
      WeightSet(f[1..], t[1..], n, s - 1, c, v);
      assert f[s := c][1..] == f[1..][s - 1 := c] && t[s := v][1..] == t[1..][s - 1 := v];
    }
  }

  lemma {:induction false} WeightDoubles(f: seq<nat>, t: seq<nat>, n: nat)
    requires Within(f, t, n)
    ensures Within(f, t, n + 1) && Weight(f, t, n + 1) == 2 * Weight(f, t, n)
  {
    if f != [] {
      WeightDoubles(f[1..], t[1..], n);
      assert f[0] != 0 ==> Pow2(n + 1 - t[0]) == 2 * Pow2(n - t[0]);
    }
  }

  lemma {:induction false} WeightNone(f: seq<nat>, t: seq<nat>, n: nat)
    requires |f| == |t| && forall i :: 0 <= i < |f| ==> f[i] == 0
    ensures Within(f, t, n) && Weight(f, t, n) == 0
  {
    if f != [] {
      WeightNone(f[1..], t[1..], n);
    }
  }

  lemma WeightAlone(f: seq<nat>, t: seq<nat>, n: nat, x: nat)
    requires Within(f, t, n) && x < |f| && f[x] != 0 && forall i :: 0 <= i < |f| && i != x ==> f[i] == 0
    ensures Weight(f, t, n) == Pow2(n - t[x])
  {
    hide Weight;
    WeightSet(f, t, n, x, 0, t[x]);
    WeightNone(f[x := 0], t[x := t[x]], n);
  }

  lemma AloneFull(f: seq<nat>, n: nat)
    requires Roots(f) == 1 && Within(f, HuffmanSizes(f), n)
    ensures Weight(f, HuffmanSizes(f), n) == Pow2(n)
  {
    hide Weight, HuffmanSizes;
    var x := SomeCount(f);
    forall i | 0 <= i < |f| && f[i] != 0
      ensures i == x
    {
      if i != x {
        RootsTwo(f, i, x);
      }
    }
    NoBits(f, x);
    WeightAlone(f, HuffmanSizes(f), n, x);
  }

  lemma MergedAt(f: seq<nat>, a: nat, b: nat)
    requires a < |f| && b < |f| && a != b
    ensures var g := Merged(f, a, b);
      g[a] == f[a] + f[b] && g[a := f[a]][b] == 0 && g[a := f[a]][b := f[b]] == f
  {
    MergedIs(f, a, b);
  }

  /** The codes of the two merged symbols take the words of their sum. */
  lemma SplitWeight(f: seq<nat>, a: nat, b: nat, s: seq<nat>, n: nat)
    requires a < |f| == |s| && b < |f| && a != b && f[a] != 0 && f[b] != 0
    requires Within(Merged(f, a, b), s, n) && s[a] < n
    ensures Within(f, s[a := s[a] + 1][b := s[a] + 1], n)
    ensures Weight(f, s[a := s[a] + 1][b := s[a] + 1], n) == Weight(Merged(f, a, b), s, n)
  {
    hide Weight, Merged;
    var g, d := Merged(f, a, b), s[a];
    MergedAt(f, a, b);
    var x, u := g[a := f[a]], s[a := d + 1];
    WeightSet(g, s, n, a, f[a], d + 1);
    WeightSet(x, u, n, b, f[b], d + 1);
    assert Pow2(n - d) == 2 * Pow2(n - (d + 1));
  }

  lemma MergedWithin(f: seq<nat>, a: nat, b: nat, s: seq<nat>, n: nat)
    requires a < |f| == |s| && b < |f| && a != b && f[a] != 0 && f[b] != 0
    requires Within(f, s[a := s[a] + 1][b := s[a] + 1], n)
    ensures Within(Merged(f, a, b), s, n) && s[a] < n
  {
    var t := s[a := s[a] + 1][b := s[a] + 1];
    assert t[a] == s[a] + 1 <= n;
    assert forall i :: 0 <= i < |f| && i != a && i != b ==> t[i] == s[i] && Merged(f, a, b)[i] == f[i];
  }

  /** The codes of Huffman's procedure take all words. */
  lemma {:induction false} HuffmanFull(f: seq<nat>, n: nat)
    requires Roots(f) > 0 && Within(f, HuffmanSizes(f), n)
    ensures Weight(f, HuffmanSizes(f), n) == Pow2(n)
    decreases Roots(f)
  {
    hide Weight, Roots, Smallest, Merged, HuffmanSizes;
    if Roots(f) == 1 {
      AloneFull(f, n);
    } else {
      var a, b := FirstMerge(f);
      var s := HuffmanSizes(Merged(f, a, b));
      assert HuffmanSizes(f) == s[a := s[a] + 1][b := s[a] + 1];
      MergedWithin(f, a, b, s, n);
      HuffmanFull(Merged(f, a, b), n);
      SplitWeight(f, a, b, s, n);
    }
  }

  /** With two or more symbols each gets at least one bit. */
  lemma {:induction false} SizePositive(f: seq<nat>, s: nat)
    requires Roots(f) >= 2 && s < |f| && f[s] != 0
    ensures HuffmanSizes(f)[s] > 0
    decreases Roots(f)
  {
    hide Roots, Smallest, HuffmanSizes;
    var a, b := FirstMerge(f);
    if s != a && s != b {
      RootsTwo(Merged(f, a, b), s, a);
      SizePositive(Merged(f, a, b), s);
    }
  }
}
