/** Which symbols get the longer codes in Huffman's procedure (jchuff.c, T.81 section K.2): the
    rarer ones, and among equals the larger symbols, so the reserved one has a longest code. */
module HuffmanOrder {
  import opened HuffmanTree
  import opened HuffmanWeights

  /** Symbol `x` is found before symbol `y` in the search for the smallest count. */
  predicate Earlier(f: seq<nat>, x: nat, y: nat)
    requires x < |f| && y < |f|
  {
    f[x] != 0 && f[y] != 0 && (f[x] < f[y] || (f[x] == f[y] && y < x))
  }

  /** The symbol that is found first is before all others, and so on. */
  lemma FirstTwo(f: seq<nat>) returns (a: nat, b: nat)
    requires Roots(f) >= 2
    ensures a == Smallest(f, -1) && b == Smallest(f, a)
    ensures a < |f| && b < |f| && a != b && Earlier(f, a, b)
    ensures forall y :: 0 <= y < |f| && f[y] != 0 && y != a ==> Earlier(f, a, y)
    ensures forall y :: 0 <= y < |f| && f[y] != 0 && y != a && y != b ==> Earlier(f, b, y)
    ensures forall s :: 0 <= s < |f| ==>
              HuffmanSizes(f)[s] == if s == a || s == b then HuffmanSizes(Merged(f, a, b))[a] + 1
                                    else HuffmanSizes(Merged(f, a, b))[s]
    ensures Roots(Merged(f, a, b)) == Roots(f) - 1
    ensures forall s :: 0 <= s < |f| ==>
              Merged(f, a, b)[s] == if s == a then f[a] + f[b] else if s == b then 0 else f[s]
  {
    hide Roots, HuffmanSizes;
    a, b := FirstMerge(f);
  }

  /** The earlier of two symbols never has the shorter code. */
  lemma {:induction false} RarerLonger(f: seq<nat>, x: nat, y: nat)
    requires x < |f| && y < |f| && Earlier(f, x, y)
    ensures HuffmanSizes(f)[x] >= HuffmanSizes(f)[y]
    decreases Roots(f), 1
  {
    hide Roots, HuffmanSizes, Merged, Smallest;
    RootsTwo(f, x, y);
    var a, b := FirstTwo(f);
    var g := Merged(f, a, b);
    if x != a && x != b {
      if y != a && y != b {
        RarerLonger(g, x, y);
      }
    } else if y != a && y != b {
      MergedNearly(f, a, b, y);
    }
  }

  /** The new tree is at most one level higher than any other. */
  lemma {:induction false} MergedNearly(f: seq<nat>, a: nat, b: nat, y: nat)
    requires Roots(f) >= 2 && a == Smallest(f, -1) && b == Smallest(f, a)
    requires a < |f| && b < |f| && y < |f| && y != a && y != b && f[y] != 0
    ensures HuffmanSizes(Merged(f, a, b))[a] + 1 >= HuffmanSizes(Merged(f, a, b))[y]
    decreases Roots(f), 0
  {
    hide Roots, HuffmanSizes, Merged, Smallest;
    var a1, b1 := FirstTwo(f);
    var g := Merged(f, a, b);
    RootsTwo(g, a, y);
    var c, d := FirstTwo(g);
    if y != c {
      RarerLonger(g, c, y);
    }
    if a != c && a != d {
      RarerLonger(Merged(g, c, d), a, c);
    }
  }

  /** With the reserved symbol, which is counted once, after all others: it has a longest code. */
  lemma ReservedLongest(f: seq<nat>, y: nat)
    requires y < |f|
    ensures HuffmanSizes(f + [1])[y] <= HuffmanSizes(f + [1])[|f|]
  {
    hide HuffmanSizes;
    var g := f + [1];
    if f[y] == 0 {
      UncountedSize(g, y);
    } else {
      RarerLonger(g, |f|, y);
    }
  }
}
