/** No prefix code has a smaller total length than the code sizes of Huffman's procedure
    (jchuff.c, T.81 section K.2). */
module HuffmanShortest {
  import opened Powers
  import opened HuffmanTree
  import opened HuffmanWeights

  // ----------------------------------------------------------------- cost

  /** Bits that all counted symbols take together. */
  function Cost(f: seq<nat>, t: seq<nat>): nat
    requires |f| == |t|
  {
    if f == [] then 0 else f[0] * t[0] + Cost(f[1..], t[1..])
  }

  lemma {:induction false} CostSet(f: seq<nat>, t: seq<nat>, s: nat, c: nat, v: nat)
    requires |f| == |t| && s < |f|
    ensures Cost(f[s := c], t[s := v]) == Cost(f, t) - f[s] * t[s] + c * v
  {
    if s == 0 {
      assert f[s := c][1..] == f[1..] && t[s := v][1..] == t[1..];
    } else {
      CostSet(f[1..], t[1..], s - 1, c, v);
      assert f[s := c][1..] == f[1..][s - 1 := c] && t[s := v][1..] == t[1..][s - 1 := v];
    }
  }

  lemma {:induction false} CostNone(f: seq<nat>, t: seq<nat>)
    requires |f| == |t| && forall s :: 0 <= s < |t| ==> t[s] == 0
    ensures Cost(f, t) == 0
  {
    if f != [] {
      CostNone(f[1..], t[1..]);
    }
  }

  // ------------------------------------------------------- the exchange argument

  /** Sizes that leave room for a code: by Kraft's inequality (`WordsFeasible`) those of
      every prefix code do. */
  ghost predicate Feasible(f: seq<nat>, t: seq<nat>, n: nat)
  {
    Within(f, t, n) && Weight(f, t, n) <= Pow2(n)
  }

  /** The size of one counted symbol changes. */
  lemma Resize(f: seq<nat>, t: seq<nat>, n: nat, s: nat, v: nat)
    requires Within(f, t, n) && s < |f| && f[s] != 0 && v <= n
    ensures Within(f, t[s := v], n) && t[s] <= n
    ensures Weight(f, t[s := v], n) == Weight(f, t, n) - Pow2(n - t[s]) + Pow2(n - v)
    ensures Cost(f, t[s := v]) == Cost(f, t) - f[s] * t[s] + f[s] * v
  {
    hide Weight, Cost, Pow2;
    assert f[s := f[s]] == f;
    WeightSet(f, t, n, s, f[s], v);
    CostSet(f, t, s, f[s], v);
  }

  /** Two symbols exchange their sizes; the one with fewer counts gets more bits. */
  lemma Exchange(f: seq<nat>, t: seq<nat>, n: nat, i: nat, j: nat)
    requires Feasible(f, t, n) && i < |f| && j < |f| && i != j && 0 < f[i] <= f[j] && t[i] <= t[j]
    ensures Feasible(f, t[i := t[j]][j := t[i]], n) && Cost(f, t[i := t[j]][j := t[i]]) <= Cost(f, t)
  {
    hide Cost, Weight, Pow2;
    Resize(f, t, n, i, t[j]);
    Resize(f, t[i := t[j]], n, j, t[i]);
    hide Within;
    ExchangeGain(f[i], f[j], t[i], t[j]);
  }

  lemma ExchangeGain(x: nat, y: nat, p: nat, q: nat)
    requires x <= y && p <= q
    ensures x * q + y * p <= x * p + y * q
  {
    MulLe(p, q, y - x);
  }

  /** The two rarest symbols can have the longest codes. */
  lemma RarestLongest(f: seq<nat>, t: seq<nat>, n: nat, a: nat, b: nat, x: nat, y: nat) returns (u: seq<nat>)
    requires Feasible(f, t, n) && a < |f| && b < |f| && a != b && 0 < f[a] <= f[b]
    requires forall i :: 0 <= i < |f| && i != a && f[i] != 0 ==> f[b] <= f[i]
    requires x < |f| && y < |f| && x != y && f[x] != 0 && f[y] != 0 && t[x] == t[y] == n
    ensures Feasible(f, u, n) && Cost(f, u) <= Cost(f, t) && u[a] == u[b] == n
  {
    hide Cost, Weight;
    u := t;
    var w := if x == a then y else x;
    if t[a] < n {
      Exchange(f, t, n, a, x);
      u := t[a := t[x]][x := t[a]];
      w := y;
    }
    assert Feasible(f, u, n) && u[a] == u[w] == n && w != a && f[w] != 0;
    if u[b] < n {
      Exchange(f, u, n, b, w);
      u := u[b := u[w]][w := u[b]];
    }
  }

  /** The two longest codes differ in the last bit only: without it, they are the code of
      the merged symbol. */
  lemma Contract(f: seq<nat>, t: seq<nat>, n: nat, a: nat, b: nat)
    requires Feasible(f, t, n) && a < |f| && b < |f| && a != b && f[a] != 0 && f[b] != 0
    requires n > 0 && t[a] == t[b] == n
    ensures Feasible(Merged(f, a, b), t[a := n - 1], n)
    ensures Cost(Merged(f, a, b), t[a := n - 1]) == Cost(f, t) - f[a] - f[b]
  {
    hide Cost, Weight;
    var sum := f[a] + f[b];
    MergedIs(f, a, b);
    var g, u := f[a := sum], t[a := n - 1];
    WeightSet(f, t, n, a, sum, n - 1);
    CostSet(f, t, a, sum, n - 1);
    WeightSet(g, u, n, b, 0, u[b]);
    CostSet(g, u, b, 0, u[b]);
    assert u[b := u[b]] == u && g[b] == f[b] && u[b] == n;
    assert Pow2(1) == 2 && Pow2(0) == 1;
    ContractCost(f[a], f[b], n);
  }

  lemma ContractCost(x: nat, y: nat, n: nat)
    requires n > 0
    ensures (x + y) * (n - 1) == x * n + y * n - x - y
  {
  }

  lemma HuffmanCost(f: seq<nat>, a: nat, b: nat, s: seq<nat>)
    requires a < |f| == |s| && b < |f| && a != b
    ensures Cost(f, s[a := s[a] + 1][b := s[a] + 1]) == Cost(Merged(f, a, b), s) + f[a] + f[b]
  {
    hide Cost, Merged;
    var g, d := Merged(f, a, b), s[a];
    MergedAt(f, a, b);
    var x, u := g[a := f[a]], s[a := d + 1];
    CostSet(g, s, a, f[a], d + 1);
    CostSet(x, u, b, f[b], d + 1);
    HuffmanCostSum(f[a], f[b], d);
  }

  lemma HuffmanCostSum(x: nat, y: nat, d: nat)
    ensures x * (d + 1) + y * (d + 1) == (x + y) * d + x + y
  {
  }

  /** A symbol that alone has the longest code can do without the last bit. */
  lemma LoneLongest(f: seq<nat>, t: seq<nat>, n: nat, x: nat)
    requires Feasible(f, t, n) && n > 0 && x < |f| && f[x] != 0 && t[x] == n
    requires forall i :: 0 <= i < |f| && i != x && f[i] != 0 ==> t[i] < n
    ensures Feasible(f, t[x := n - 1], n) && Cost(f, t[x := n - 1]) <= Cost(f, t)
  {
    hide Cost, Weight;
    Resize(f, t, n, x, n - 1);
    WeightDoubles(f, t[x := n - 1], n - 1);
    MulLe(n - 1, n, f[x]);
    assert Pow2(n) == 2 * Pow2(n - 1) && Pow2(1) == 2 && Pow2(0) == 1;
  }

  lemma NoRoom(f: seq<nat>, t: seq<nat>)
    requires Roots(f) >= 2
    ensures !Feasible(f, t, 0)
  {
    hide Weight, Roots;
    if Feasible(f, t, 0) {
      var a := SomeCount(f);
      var b := Another(f, a);
      WeightSet(f, t, 0, a, 0, 0);
      WeightSet(f[a := 0], t[a := 0], 0, b, 0, 0);
    }
  }

  /** With two longest codes the first merge of Huffman's procedure loses nothing. */
  lemma Paired(f: seq<nat>, t: seq<nat>, n: nat, x: nat, y: nat) returns (a: nat, b: nat, u: seq<nat>)
    requires Feasible(f, t, n) && Roots(f) >= 2 && n > 0
    requires x < |f| && y < |f| && x != y && f[x] != 0 && f[y] != 0 && t[x] == t[y] == n
    ensures a < |f| && b < |f| && Roots(Merged(f, a, b)) < Roots(f) && Feasible(Merged(f, a, b), u, n)
    ensures Cost(Merged(f, a, b), u) + f[a] + f[b] <= Cost(f, t)
    ensures Cost(f, HuffmanSizes(f)) == Cost(Merged(f, a, b), HuffmanSizes(Merged(f, a, b))) + f[a] + f[b]
  {
    hide Cost, Weight, Pow2, Total, Roots, HuffmanSizes, Smallest, Merged;
    a, b := FirstMerge(f);
    var v := RarestLongest(f, t, n, a, b, x, y);
    Contract(f, v, n, a, b);
    u := v[a := n - 1];
    var s := HuffmanSizes(Merged(f, a, b));
    HuffmanCost(f, a, b, s);
    assert HuffmanSizes(f) == s[a := s[a] + 1][b := s[a] + 1];
  }

  /** Huffman's code sizes cost least. */
  lemma {:induction false} LeastCost(f: seq<nat>, t: seq<nat>, n: nat)
    requires Feasible(f, t, n)
    ensures Cost(f, HuffmanSizes(f)) <= Cost(f, t)
    decreases Roots(f), Total(t), n
  {
    hide Cost, Weight, Pow2, Total, Roots, Smallest, Merged;
    if Roots(f) < 2 {
      CostNone(f, HuffmanSizes(f));
      return;
    }
    hide HuffmanSizes;
    if n == 0 {
      NoRoom(f, t);
    } else if x :| 0 <= x < |f| && f[x] != 0 && t[x] == n {
      if y :| 0 <= y < |f| && y != x && f[y] != 0 && t[y] == n {
        var a, b, u := Paired(f, t, n, x, y);
        LeastCost(Merged(f, a, b), u, n);
      } else {
        LoneLongest(f, t, n, x);
        TotalUpdate(t, x, n - 1);
        LeastCost(f, t[x := n - 1], n);
      }
    } else {
      Narrower(f, t, n - 1);
      LeastCost(f, t, n - 1);
    }
  }

  lemma Narrower(f: seq<nat>, t: seq<nat>, n: nat)
    requires Feasible(f, t, n + 1) && Within(f, t, n)
    ensures Feasible(f, t, n)
  {
    hide Weight;
    WeightDoubles(f, t, n);
    assert Pow2(n + 1) == 2 * Pow2(n);
  }

  // --------------------------------------------------------------- prefix codes

  /** Each counted symbol has a word, and none begins another's. */
  ghost predicate PrefixCode(f: seq<nat>, words: seq<seq<bool>>)
  {
    && |f| == |words|
    && forall i, j :: 0 <= i < |f| && 0 <= j < |f| && i != j && f[i] != 0 && f[j] != 0 ==>
         !(words[i] <= words[j])
  }

  function Lengths(words: seq<seq<bool>>): (t: seq<nat>)
    ensures |t| == |words| && forall i :: 0 <= i < |t| ==> t[i] == |words[i]|
  {
    seq(|words|, i requires 0 <= i < |words| => |words[i]|)
  }

  /** The counted symbols fall into two halves by the first bit of their words. */
  ghost predicate Halves(f: seq<nat>, t: seq<nat>, f0: seq<nat>, f1: seq<nat>, u: seq<nat>)
  {
    && |f| == |t| == |f0| == |f1| == |u|
    && forall i :: 0 <= i < |f| ==>
         if f[i] == 0 then f0[i] == f1[i] == 0
         else (f0[i] == 0 <==> f1[i] != 0) && t[i] == u[i] + 1
  }

  lemma {:induction false} WeightHalves(f: seq<nat>, t: seq<nat>, f0: seq<nat>, f1: seq<nat>, u: seq<nat>, n: nat)
    requires Within(f, t, n + 1) && Halves(f, t, f0, f1, u)
    ensures Within(f0, u, n) && Within(f1, u, n)
    ensures Weight(f, t, n + 1) == Weight(f0, u, n) + Weight(f1, u, n)
  {
    hide Pow2;
    if f != [] {
      WeightHalves(f[1..], t[1..], f0[1..], f1[1..], u[1..], n);
    }
  }

  /** The symbols whose word begins with `bit`. */
  function Side(f: seq<nat>, words: seq<seq<bool>>, bit: bool): (g: seq<nat>)
    requires |f| == |words|
    ensures |g| == |f|
    ensures forall i :: 0 <= i < |f| ==>
              g[i] == if words[i] != [] && words[i][0] == bit then f[i] else 0
  {
    seq(|f|, i requires 0 <= i < |f| => if words[i] != [] && words[i][0] == bit then f[i] else 0)
  }

  function Tails(words: seq<seq<bool>>): (v: seq<seq<bool>>)
    ensures |v| == |words|
    ensures forall i :: 0 <= i < |v| ==> v[i] == if words[i] == [] then [] else words[i][1..]
  {
    seq(|words|, i requires 0 <= i < |words| => if words[i] == [] then [] else words[i][1..])
  }

  lemma SidePrefix(f: seq<nat>, words: seq<seq<bool>>, bit: bool)
    requires PrefixCode(f, words)
    ensures PrefixCode(Side(f, words, bit), Tails(words))
  {
    var g, v := Side(f, words, bit), Tails(words);
    forall i, j | 0 <= i < |f| && 0 <= j < |f| && i != j && g[i] != 0 && g[j] != 0
      ensures !(v[i] <= v[j])
    {
      assert words[i] == [bit] + v[i] && words[j] == [bit] + v[j];
    }
  }

  /** Kraft's inequality. */
  lemma {:induction false} WordsFeasible(f: seq<nat>, words: seq<seq<bool>>, n: nat)
    requires PrefixCode(f, words) && Within(f, Lengths(words), n)
    ensures Feasible(f, Lengths(words), n)
    decreases n
  {
    hide Weight;
    var t := Lengths(words);
    if x :| 0 <= x < |f| && f[x] != 0 && words[x] == [] {
      forall i | 0 <= i < |f| && i != x
        ensures f[i] == 0
      {
        assert words[x] <= words[i];
      }
      WeightAlone(f, t, n, x);
    } else if n == 0 {
      WeightNone(f, t, 0);
    } else {
      var f0, f1, v := Side(f, words, false), Side(f, words, true), Tails(words);
      WeightHalves(f, t, f0, f1, Lengths(v), n - 1);
      SidePrefix(f, words, false);
      SidePrefix(f, words, true);
      WordsFeasible(f0, v, n - 1);
      WordsFeasible(f1, v, n - 1);
      assert Pow2(n) == 2 * Pow2(n - 1);
    }
  }

  /** No prefix code of the counted symbols costs less than the code sizes of Huffman's
      procedure. */
  lemma NoShorterCode(f: seq<nat>, words: seq<seq<bool>>)
    requires PrefixCode(f, words)
    ensures Cost(f, HuffmanSizes(f)) <= Cost(f, Lengths(words))
  {
    hide Cost, Weight, HuffmanSizes, Total, PrefixCode;
    assert |f| == |words| by { PrefixLengths(f, words); }
    var t := Lengths(words);
    forall i | 0 <= i < |f|
      ensures t[i] <= Total(t)
    {
      TotalUpdate(t, i, 0);
    }
    WordsFeasible(f, words, Total(t));
    LeastCost(f, t, Total(t));
  }

  lemma PrefixLengths(f: seq<nat>, words: seq<seq<bool>>)
    requires PrefixCode(f, words)
    ensures |f| == |words|
  {
  }

  /** A prefix code that has these sizes: the words of the merged symbol get another bit. */
  function HuffmanWords(f: seq<nat>): (words: seq<seq<bool>>)
    ensures |words| == |f|
    decreases Roots(f)
  {
    if Roots(f) < 2 then seq(|f|, i => [])
    else
      TwoSmallest(f);
      var a := Smallest(f, -1);
      var b := Smallest(f, a);
      MergeCounts(f, a, b);
      var w := HuffmanWords(Merged(f, a, b));
      w[a := w[a] + [false]][b := w[a] + [true]]
  }

  lemma PrefixStep(f: seq<nat>, a: nat, b: nat, w: seq<seq<bool>>)
    requires a < |f| && b < |f| && a != b && f[a] != 0 && f[b] != 0 && PrefixCode(Merged(f, a, b), w)
    ensures PrefixCode(f, w[a := w[a] + [false]][b := w[a] + [true]])
  {
    var g, v := Merged(f, a, b), w[a := w[a] + [false]][b := w[a] + [true]];
    assert forall i :: 0 <= i < |f| && i != a && i != b ==> g[i] == f[i] && v[i] == w[i];
    assert v[a] == w[a] + [false] && v[b] == w[a] + [true];
    assert v[a][|w[a]|] != v[b][|w[a]|];
    forall i, j | 0 <= i < |f| && 0 <= j < |f| && i != j && f[i] != 0 && f[j] != 0
      ensures !(v[i] <= v[j])
    {
      var p := if i == b then a else i;
      var q := if j == b then a else j;
      if p != q {
        Longer(w[p], v[i], w[q], v[j]);
      }
    }
  }

  /** Words with at most one more bit begin each other only if the shorter ones did, or
      were equal. */
  lemma Longer(p: seq<bool>, x: seq<bool>, q: seq<bool>, y: seq<bool>)
    requires p <= x && q <= y && |y| <= |q| + 1
    ensures x <= y ==> p <= q || q <= p
  {
    if x <= y {
      assert forall k :: 0 <= k < |p| && k < |q| ==> p[k] == q[k];
    }
  }

  /** The minimum is attained. */
  lemma {:induction false} HuffmanAttained(f: seq<nat>)
    requires Roots(f) > 0
    ensures PrefixCode(f, HuffmanWords(f)) && Lengths(HuffmanWords(f)) == HuffmanSizes(f)
    decreases Roots(f)
  {
    hide Smallest, Merged, PrefixCode;
    if Roots(f) < 2 {
      OnePrefix(f);
    } else {
      TwoSmallest(f);
      var a := Smallest(f, -1);
      var b := Smallest(f, a);
      MergeCounts(f, a, b);
      var w := HuffmanWords(Merged(f, a, b));
      HuffmanAttained(Merged(f, a, b));
      PrefixStep(f, a, b, w);
    }
  }

  lemma OnePrefix(f: seq<nat>)
    requires Roots(f) < 2
    ensures PrefixCode(f, seq(|f|, i => []))
  {
    forall i, j | 0 <= i < |f| && 0 <= j < |f| && i != j && f[i] != 0 && f[j] != 0
      ensures false
    {
      RootsTwo(f, i, j);
    }
  }
}
