/** Generation of an optimal Huffman table from symbol counts (jchuff.c, T.81
    section K.2): trees as chains of symbols, then limiting of code lengths. */
module HuffmanTree {
  const SYMBOLS: nat := 257          // 256 byte values and the reserved symbol
  const MAX_COUNT: nat := 1_000_000_000

  /** The symbols of `b` go over to `a`. */
  function Adopt(owner: seq<int>, a: int, b: int): (r: seq<int>)
    ensures |r| == |owner|
    ensures forall s :: 0 <= s < |owner| ==> r[s] == if owner[s] == b then a else owner[s]
  {
    if owner == [] then [] else [if owner[0] == b then a else owner[0]] + Adopt(owner[1..], a, b)
  }

  function Total(f: seq<nat>): nat
  {
    if f == [] then 0 else f[0] + Total(f[1..])
  }

  lemma {:induction false} TotalUpdate(f: seq<nat>, i: nat, v: nat)
    requires i < |f|
    ensures Total(f[i := v]) == Total(f) - f[i] + v && f[i] <= Total(f)
  {
    if i == 0 {
      assert f[i := v][1..] == f[1..];
    } else {
      TotalUpdate(f[1..], i - 1, v);
      assert f[i := v][1..] == f[1..][i - 1 := v];
    }
  }

  // ------------------------------------------------------------------ forest

  /** `chain` is linked through `others` and ends there. */
  ghost predicate Linked(others: seq<int>, chain: seq<int>)
  {
    && chain != []
    && (forall i :: 0 <= i < |chain| ==> 0 <= chain[i] < |others|)
    && (forall i :: 0 <= i < |chain| - 1 ==> others[chain[i]] == chain[i + 1])
    && others[chain[|chain| - 1]] == -1
    && forall i, j :: 0 <= i < j < |chain| ==> chain[i] != chain[j]
  }

  ghost predicate IsTree(others: seq<int>, owner: seq<int>, r: int, chain: seq<int>)
    requires |owner| == |others|
  {
    && Linked(others, chain) && chain[0] == r
    && forall s :: 0 <= s < |owner| ==> (owner[s] == r <==> s in chain)
  }

  /** The nonzero entries of `freq` are the roots of trees that partition the
      counted symbols. */
  ghost predicate Forest(freq: seq<nat>, others: seq<int>, owner: seq<int>,
                         chains: seq<seq<int>>)
  {
    && |freq| == |others| == |owner| == |chains|
    && (forall r :: 0 <= r < |freq| ==> (freq[r] != 0 <==> chains[r] != []))
    && (forall r :: 0 <= r < |freq| && chains[r] != [] ==> IsTree(others, owner, r, chains[r]))
    && (forall s :: 0 <= s < |owner| ==>
          owner[s] == -1 || (0 <= owner[s] < |freq| && chains[owner[s]] != []))
  }

  /** Code sizes after one more level above all symbols of `chain`. */
  ghost predicate Bumped(sizes: seq<nat>, bumped: seq<nat>, chain: seq<int>)
  {
    && |bumped| == |sizes|
    && forall s :: 0 <= s < |sizes| ==> bumped[s] == sizes[s] + if s in chain then 1 else 0
  }

  lemma LinkedJoin(others: seq<int>, a: seq<int>, b: seq<int>)
    requires Linked(others, a) && Linked(others, b)
    requires forall s :: s in a ==> s !in b
    ensures Linked(others[a[|a| - 1] := b[0]], a + b)
  {
    var joined := others[a[|a| - 1] := b[0]];
    forall i | 0 <= i < |a + b| - 1
      ensures joined[(a + b)[i]] == (a + b)[i + 1]
    {
      if i >= |a| {
        assert b[i - |a|] in b && a[|a| - 1] in a;
      }
    }
    assert b[|b| - 1] in b && a[|a| - 1] in a;
    forall i, j | 0 <= i < j < |a + b|
      ensures (a + b)[i] != (a + b)[j]
    {
      if i < |a| <= j {
        assert a[i] in a && b[j - |a|] in b;
      }
    }
  }

  /** Two different trees share no symbol. */
  lemma Disjoint(freq: seq<nat>, others: seq<int>, owner: seq<int>,
                 chains: seq<seq<int>>, a: nat, b: nat)
    requires Forest(freq, others, owner, chains)
    requires a < |freq| && b < |freq| && a != b && chains[a] != [] && chains[b] != []
    ensures forall s :: s in chains[a] ==> s !in chains[b]
    ensures Linked(others, chains[a]) && Linked(others, chains[b])
    ensures chains[a][0] == a && chains[b][0] == b
    ensures 0 <= chains[a][|chains[a]| - 1] < |others|
  {
    assert IsTree(others, owner, a, chains[a]) && IsTree(others, owner, b, chains[b]);
    forall s | s in chains[a]
      ensures s !in chains[b]
    {
      assert 0 <= s < |owner| && owner[s] == a;
    }
  }

  /** The merged tree is one chain. */
  lemma MergedTree(freq: seq<nat>, others: seq<int>, owner: seq<int>,
                   chains: seq<seq<int>>, a: nat, b: nat)
    requires Forest(freq, others, owner, chains)
    requires a < |freq| && b < |freq| && a != b && chains[a] != [] && chains[b] != []
    ensures IsTree(others[chains[a][|chains[a]| - 1] := b], Adopt(owner, a, b), a,
                   chains[a] + chains[b])
  {
    Disjoint(freq, others, owner, chains, a, b);
    LinkedJoin(others, chains[a], chains[b]);
    assert IsTree(others, owner, a, chains[a]) && IsTree(others, owner, b, chains[b]);
  }

  lemma OtherTree(freq: seq<nat>, others: seq<int>, owner: seq<int>,
                  chains: seq<seq<int>>, a: nat, b: nat, r: nat)
    requires Forest(freq, others, owner, chains)
    requires a < |freq| && b < |freq| && a != b && chains[a] != [] && chains[b] != []
    requires r < |freq| && r != a && r != b && chains[r] != []
    ensures IsTree(others[chains[a][|chains[a]| - 1] := b], Adopt(owner, a, b), r, chains[r])
  {
    Disjoint(freq, others, owner, chains, a, b);
    Disjoint(freq, others, owner, chains, a, r);
    Disjoint(freq, others, owner, chains, b, r);
    assert IsTree(others, owner, r, chains[r]);
    var last := chains[a][|chains[a]| - 1];
    assert last in chains[a];
  }

  lemma MergeForest(freq: seq<nat>, others: seq<int>, owner: seq<int>,
                    chains: seq<seq<int>>, a: nat, b: nat)
    requires Forest(freq, others, owner, chains)
    requires a < |freq| && b < |freq| && a != b && chains[a] != [] && chains[b] != []
    ensures Forest(Merged(freq, a, b),
                   others[chains[a][|chains[a]| - 1] := b], Adopt(owner, a, b),
                   chains[a := chains[a] + chains[b]][b := []])
  {
    hide IsTree, Linked;
    Disjoint(freq, others, owner, chains, a, b);
    var chains2 := chains[a := chains[a] + chains[b]][b := []];
    var others2, owner2 := others[chains[a][|chains[a]| - 1] := b], Adopt(owner, a, b);
    MergedTree(freq, others, owner, chains, a, b);
    forall r | 0 <= r < |freq| && chains2[r] != []
      ensures IsTree(others2, owner2, r, chains2[r])
    {
      if r != a {
        OtherTree(freq, others, owner, chains, a, b, r);
      }
    }
  }

  // ------------------------------------------------- Huffman's code sizes

  /** The symbol of the smallest nonzero count except `skip`, the larger symbol on
      ties; -1 if there is none. */
  function Smallest(f: seq<nat>, skip: int): (c: int)
    ensures c == -1 || (0 <= c < |f| && c != skip && f[c] != 0)
    ensures forall i :: 0 <= i < |f| && i != skip && f[i] != 0 ==>
              c != -1 && (f[c] < f[i] || (f[c] == f[i] && i <= c))
  {
    if f == [] then -1
    else
      var n := |f| - 1;
      var c := Smallest(f[..n], skip);
      if f[n] == 0 || n == skip || (c != -1 && f[c] < f[n]) then c else n
  }

  lemma {:induction false} SomeCount(f: seq<nat>) returns (r: nat)
    requires Roots(f) > 0
    ensures r < |f| && f[r] != 0
  {
    if f[0] != 0 {
      r := 0;
    } else {
      var q := SomeCount(f[1..]);
      r := q + 1;
    }
  }

  lemma Another(f: seq<nat>, s: nat) returns (t: nat)
    requires s < |f| && f[s] != 0 && Roots(f) >= 2
    ensures t < |f| && t != s && f[t] != 0
  {
    RootsUpdate(f, s, 0);
    t := SomeCount(f[s := 0]);
  }

  lemma TwoSmallest(f: seq<nat>)
    requires Roots(f) >= 2
    ensures 0 <= Smallest(f, -1) < |f| && 0 <= Smallest(f, Smallest(f, -1)) < |f|
  {
    var s := SomeCount(f);
    var t := Another(f, Smallest(f, -1));
  }

  /** Counts after tree `b` has been hung under tree `a`. */
  function Merged(f: seq<nat>, a: nat, b: nat): (g: seq<nat>)
    requires a < |f| && b < |f|
    ensures |g| == |f|
  {
    f[a := f[a] + f[b]][b := 0]
  }

  lemma MergedIs(f: seq<nat>, a: nat, b: nat)
    requires a < |f| && b < |f|
    ensures var sum := f[a] + f[b];
      Merged(f, a, b) == f[a := sum][b := 0]
  {
  }

  lemma MergeCounts(f: seq<nat>, a: nat, b: nat)
    requires a < |f| && b < |f| && a != b && f[a] != 0 && f[b] != 0
    ensures Total(Merged(f, a, b)) == Total(f) && Roots(Merged(f, a, b)) == Roots(f) - 1
  {
    hide Total, Roots, Merged;
    var sum := f[a] + f[b];
    var x := f[a := sum];
    TotalUpdate(f, a, sum);
    TotalUpdate(x, b, 0);
    RootsUpdate(f, a, sum);
    RootsUpdate(x, b, 0);
    assert x[b] == f[b];
    MergedIs(f, a, b);
  }

  /** The code sizes of Huffman's procedure: the two smallest counts become one, and in the
      end each of the two gets one more bit than their sum. */
  function HuffmanSizes(f: seq<nat>): (sizes: seq<nat>)
    ensures |sizes| == |f|
    decreases Roots(f)
  {
    if Roots(f) < 2 then seq(|f|, i => 0)
    else
      TwoSmallest(f);
      var a := Smallest(f, -1);
      var b := Smallest(f, a);
      MergeCounts(f, a, b);
      var s := HuffmanSizes(Merged(f, a, b));
      s[a := s[a] + 1][b := s[a] + 1]
  }

  lemma {:induction false} UncountedSize(f: seq<nat>, s: nat)
    requires s < |f| && f[s] == 0
    ensures HuffmanSizes(f)[s] == 0
    decreases Roots(f)
  {
    if Roots(f) >= 2 {
      TwoSmallest(f);
      var a := Smallest(f, -1);
      var b := Smallest(f, a);
      MergeCounts(f, a, b);
      UncountedSize(Merged(f, a, b), s);
    }
  }

  /** The code sizes as they are found: merging stops when the second smallest count is over
      10^9, where the search does not look. */
  function CodeSizes(f: seq<nat>): (sizes: seq<nat>)
    ensures |sizes| == |f|
    decreases Roots(f)
  {
    if Roots(f) < 2 then seq(|f|, i => 0)
    else
      TwoSmallest(f);
      var a := Smallest(f, -1);
      var b := Smallest(f, a);
      MergeCounts(f, a, b);
      if f[b] > MAX_COUNT then seq(|f|, i => 0)
      else
        var s := CodeSizes(Merged(f, a, b));
        s[a := s[a] + 1][b := s[a] + 1]
  }

  lemma {:induction false} UncountedCode(f: seq<nat>, s: nat)
    requires s < |f| && f[s] == 0
    ensures CodeSizes(f)[s] == 0
    decreases Roots(f)
  {
    if Roots(f) >= 2 {
      TwoSmallest(f);
      var a := Smallest(f, -1);
      var b := Smallest(f, a);
      MergeCounts(f, a, b);
      if f[b] <= MAX_COUNT {
        UncountedCode(Merged(f, a, b), s);
      }
    }
  }

  /** The larger of the two counts that Huffman's procedure merges last. */
  function LastMerged(f: seq<nat>): nat
    decreases Roots(f)
  {
    if Roots(f) < 2 then 0
    else
      TwoSmallest(f);
      var a := Smallest(f, -1);
      var b := Smallest(f, a);
      MergeCounts(f, a, b);
      if Roots(f) == 2 then f[b] else LastMerged(Merged(f, a, b))
  }

  lemma {:induction false} LastMergedAtLeast(f: seq<nat>, m: nat)
    requires Roots(f) >= 2 && forall i :: 0 <= i < |f| && f[i] != 0 ==> m <= f[i]
    ensures m <= LastMerged(f)
    decreases Roots(f)
  {
    hide Smallest, Roots;
    TwoSmallest(f);
    var a := Smallest(f, -1);
    var b := Smallest(f, a);
    MergeCounts(f, a, b);
    if Roots(f) > 2 {
      LastMergedAtLeast(Merged(f, a, b), m);
    }
  }

  /** The code sizes are Huffman's if and only if the counts merged last are within the
      search. */
  lemma {:induction false} SearchedAll(f: seq<nat>)
    ensures CodeSizes(f) == HuffmanSizes(f) <==> LastMerged(f) <= 1_000_000_000
    decreases Roots(f)
  {
    hide Smallest, Roots, Merged;
    if Roots(f) >= 2 {
      TwoSmallest(f);
      var a := Smallest(f, -1);
      var b := Smallest(f, a);
      MergeCounts(f, a, b);
      var g := Merged(f, a, b);
      MergedIs(f, a, b);
      SearchedAll(g);
      UncountedSize(g, b);
      UncountedCode(g, b);
      SameBumped(CodeSizes(g), HuffmanSizes(g), a, b);
      if f[b] > MAX_COUNT {
        assert HuffmanSizes(f)[a] != 0 && CodeSizes(f)[a] == 0;
        if Roots(f) > 2 {
          LastMergedAtLeast(g, f[b]);
        }
      }
    }
  }

  lemma SameBumped(s: seq<nat>, t: seq<nat>, a: nat, b: nat)
    requires |s| == |t| && a < |s| && b < |s| && a != b && s[b] == t[b]
    ensures s[a := s[a] + 1][b := s[a] + 1] == t[a := t[a] + 1][b := t[a] + 1] <==> s == t
  {
    var x, y := s[a := s[a] + 1][b := s[a] + 1], t[a := t[a] + 1][b := t[a] + 1];
    if x == y {
      forall i | 0 <= i < |s|
        ensures s[i] == t[i]
      {
        assert x[i] == y[i] && x[a] == s[a] + 1 && y[a] == t[a] + 1;
      }
    }
  }

  /** With at most 10^9 counts, and the reserved symbol, they are. */
  lemma {:induction false} FewSearched(f: seq<nat>)
    requires Total(f) <= MAX_COUNT + 1
    ensures LastMerged(f) <= MAX_COUNT
    decreases Roots(f)
  {
    hide Smallest, Roots, Merged, Total;
    if Roots(f) >= 2 {
      TwoSmallest(f);
      var a := Smallest(f, -1);
      var b := Smallest(f, a);
      MergeCounts(f, a, b);
      TotalTwo(f, a, b);
      FewSearched(Merged(f, a, b));
    }
  }

  /** A symbol counted more than 10^9 times gets no code. */
  lemma {:induction false} TooOftenLost(f: seq<nat>, s: nat)
    requires s < |f| && f[s] > 1_000_000_000
    ensures CodeSizes(f)[s] == 0
    decreases Roots(f)
  {
    hide Smallest, Roots;
    if Roots(f) >= 2 {
      TwoSmallest(f);
      var a := Smallest(f, -1);
      var b := Smallest(f, a);
      MergeCounts(f, a, b);
      if f[b] <= MAX_COUNT {
        TooOftenLost(Merged(f, a, b), s);
      }
    }
  }

  /** The bits a symbol has so far, and those its tree is still to get, are its code size. */
  ghost predicate Remaining(f: seq<nat>, freq: seq<nat>, sizes: seq<nat>, owner: seq<int>)
  {
    && |f| == |freq| == |sizes| == |owner|
    && forall s :: 0 <= s < |f| ==>
         if owner[s] == -1 then CodeSizes(f)[s] == sizes[s] == 0
         else 0 <= owner[s] < |freq| && CodeSizes(f)[s] == sizes[s] + CodeSizes(freq)[owner[s]]
  }

  /** One more bit for the symbols of the trees `a` and `b`. */
  ghost predicate Deeper(sizes: seq<nat>, bumped: seq<nat>, owner: seq<int>, a: int, b: int)
  {
    && |bumped| == |sizes| == |owner|
    && forall s :: 0 <= s < |sizes| ==> bumped[s] == sizes[s] + if owner[s] == a || owner[s] == b then 1 else 0
  }

  lemma AllRemaining(f: seq<nat>, sizes: seq<nat>)
    requires |f| == |sizes| && forall s :: 0 <= s < |f| ==> sizes[s] == 0
    ensures Remaining(f, f, sizes, Themselves(f))
  {
    forall s | 0 <= s < |f| && f[s] == 0
      ensures CodeSizes(f)[s] == 0
    {
      UncountedCode(f, s);
    }
  }

  lemma MergeRemaining(f: seq<nat>, freq: seq<nat>, sizes: seq<nat>, owner: seq<int>, a: nat, b: nat,
                       bumped: seq<nat>)
    requires Remaining(f, freq, sizes, owner) && Roots(freq) >= 2
    requires a == Smallest(freq, -1) && b == Smallest(freq, a) && b < |freq| && freq[b] <= MAX_COUNT
    requires Deeper(sizes, bumped, owner, a, b)
    ensures Remaining(f, Merged(freq, a, b), bumped, Adopt(owner, a, b))
  {
    hide Smallest, Roots, Merged;
    TwoSmallest(freq);
    var s := CodeSizes(Merged(freq, a, b));
    assert CodeSizes(freq) == s[a := s[a] + 1][b := s[a] + 1];
    hide CodeSizes;
  }

  lemma NoneRemaining(f: seq<nat>, freq: seq<nat>, sizes: seq<nat>, owner: seq<int>)
    requires Remaining(f, freq, sizes, owner) && forall i :: 0 <= i < |freq| ==> CodeSizes(freq)[i] == 0
    ensures sizes == CodeSizes(f)
  {
    hide CodeSizes;
  }

  // ------------------------------------------------------- merging, in place

  /** `c` has the smallest nonzero count up to 10^9, the larger symbol on ties; -1 if none. */
  ghost predicate Found(f: seq<nat>, skip: int, c: int)
  {
    && (c == -1 || (0 <= c < |f| && c != skip && 0 < f[c] <= MAX_COUNT))
    && forall i :: 0 <= i < |f| && i != skip && 0 < f[i] <= MAX_COUNT ==>
         c != -1 && (f[c] < f[i] || (f[c] == f[i] && i <= c))
  }

  method FindSmallest(freq: array<nat>, skip: int) returns (c: int)
    requires freq.Length == SYMBOLS
    ensures Found(freq[..], skip, c)
  {
    c := -1;
    var v := MAX_COUNT;
    for i := 0 to SYMBOLS
      invariant c == -1 ==> v == MAX_COUNT
      invariant c != -1 ==> 0 <= c < i && c != skip && 0 < freq[c] == v <= MAX_COUNT
      invariant forall k :: 0 <= k < i && k != skip && 0 < freq[k] <= MAX_COUNT ==>
                  c != -1 && (freq[c] < freq[k] || (freq[c] == freq[k] && k <= c))
    {
      if freq[i] != 0 && freq[i] <= v && i != skip {
        v := freq[i];
        c := i;
      }
    }
  }

  lemma LinkedAt(others: seq<int>, chain: seq<int>, i: nat)
    requires Linked(others, chain) && i < |chain|
    ensures 0 <= chain[i] < |others|
    ensures if i < |chain| - 1 then others[chain[i]] == chain[i + 1] >= 0 else others[chain[i]] < 0
    ensures chain[i] !in chain[..i]
  {
  }

  /** One more bit for every symbol of a chain; `last` is its end. */
  method BumpChain(codesize: array<nat>, others: array<int>, root: nat, ghost chain: seq<int>)
    returns (last: nat)
    requires codesize.Length == others.Length
    requires Linked(others[..], chain) && chain != [] && chain[0] == root
    modifies codesize
    ensures Bumped(old(codesize[..]), codesize[..], chain)
    ensures last == chain[|chain| - 1] < others.Length
  {
    hide Linked;
    var c := root;
    ghost var i := 0;
    LinkedAt(others[..], chain, 0);
    codesize[c] := codesize[c] + 1;
    while others[c] >= 0
      invariant 0 <= i < |chain| && c == chain[i] && others[..] == old(others[..])
      invariant 0 <= c < others.Length
      invariant forall s :: 0 <= s < codesize.Length ==>
                  codesize[s] == old(codesize[s]) + if s in chain[..i + 1] then 1 else 0
      decreases |chain| - i
    {
      LinkedAt(others[..], chain, i);
      c := others[c];
      i := i + 1;
      LinkedAt(others[..], chain, i);
      codesize[c] := codesize[c] + 1;
      assert chain[..i + 1] == chain[..i] + [chain[i]];
    }
    LinkedAt(others[..], chain, i);
    assert chain[..i + 1] == chain;
    last := c;
  }

  function Roots(f: seq<nat>): nat
  {
    if f == [] then 0 else (if f[0] != 0 then 1 else 0) + Roots(f[1..])
  }

  lemma {:induction false} RootsUpdate(f: seq<nat>, i: nat, v: nat)
    requires i < |f|
    ensures Roots(f[i := v]) == Roots(f) - (if f[i] != 0 then 1 else 0) + (if v != 0 then 1 else 0)
  {
    if i == 0 {
      assert f[i := v][1..] == f[1..];
    } else {
      RootsUpdate(f[1..], i - 1, v);
      assert f[i := v][1..] == f[1..][i - 1 := v];
    }
  }

  function Alone(f: seq<nat>): (chains: seq<seq<int>>)
    ensures |chains| == |f|
    ensures forall r :: 0 <= r < |f| ==> chains[r] == if f[r] != 0 then [r] else []
  {
    seq(|f|, r requires 0 <= r < |f| => if f[r] != 0 then [r] else [])
  }

  function Themselves(f: seq<nat>): (owner: seq<int>)
    ensures |owner| == |f| && forall s :: 0 <= s < |f| ==> owner[s] == if f[s] != 0 then s else -1
  {
    seq(|f|, s requires 0 <= s < |f| => if f[s] != 0 then s else -1)
  }

  /** At first every counted symbol is a tree of its own. */
  lemma FirstForest(f: seq<nat>, others: seq<int>)
    requires |f| == |others| && forall s :: 0 <= s < |f| ==> others[s] == -1
    ensures Forest(f, others, Themselves(f), Alone(f))
  {
    forall r | 0 <= r < |f| && f[r] != 0
      ensures IsTree(others, Themselves(f), r, [r])
    {
    }
  }

  lemma TotalTwo(f: seq<nat>, i: nat, j: nat)
    requires i < |f| && j < |f| && i != j
    ensures f[i] + f[j] <= Total(f)
  {
    TotalUpdate(f, i, 0);
    TotalUpdate(f[i := 0], j, 0);
  }

  lemma {:induction false} TotalSnoc(f: seq<nat>, v: nat)
    ensures Total(f + [v]) == Total(f) + v
  {
    if f != [] {
      assert (f + [v])[1..] == f[1..] + [v];
      TotalSnoc(f[1..], v);
    }
  }

  lemma BumpedTwice(sizes: seq<nat>, mid: seq<nat>, bumped: seq<nat>, a: seq<int>, b: seq<int>)
    requires Bumped(sizes, mid, a) && Bumped(mid, bumped, b) && forall s :: s in a ==> s !in b
    ensures Bumped(sizes, bumped, a + b)
  {
  }

  /** A chain is not touched by a link set outside it. */
  lemma LinkedElsewhere(others: seq<int>, chain: seq<int>, at: nat, v: int)
    requires Linked(others, chain) && at < |others| && at !in chain
    ensures Linked(others[at := v], chain)
  {
    forall i | 0 <= i < |chain|
      ensures others[at := v][chain[i]] == others[chain[i]]
    {
      assert chain[i] in chain;
    }
  }

  /** Hang tree `b` under tree `a`. */
  method MergeTrees(freq: array<nat>, codesize: array<nat>, others: array<int>, a: nat, b: nat,
                    ghost owner: seq<int>, ghost chains: seq<seq<int>>)
    requires freq.Length == codesize.Length == others.Length && freq != codesize
    requires a < freq.Length && b < freq.Length && a != b && freq[a] != 0 && freq[b] != 0
    requires Forest(freq[..], others[..], owner, chains)
    modifies freq, codesize, others
    ensures freq[..] == Merged(old(freq[..]), a, b)
    ensures Deeper(old(codesize[..]), codesize[..], owner, a, b)
    ensures Forest(freq[..], others[..], Adopt(owner, a, b),
                   chains[a := chains[a] + chains[b]][b := []])
  {
    hide *;
    MergeForestAll(freq[..], others[..], owner, chains, a, b);
    Disjoint(freq[..], others[..], owner, chains, a, b);
    freq[a] := freq[a] + freq[b];
    freq[b] := 0;
    var last := BumpChain(codesize, others, a, chains[a]);
    ghost var mid := codesize[..];
    assert last in chains[a];
    LinkedElsewhere(others[..], chains[b], last, b);
    others[last] := b;
    assert others[..] == old(others[..])[last := b];
    var _ := BumpChain(codesize, others, b, chains[b]);
    BumpedTwice(old(codesize[..]), mid, codesize[..], chains[a], chains[b]);
    BumpedDeeper(old(freq[..]), old(others[..]), owner, chains, a, b, old(codesize[..]), codesize[..]);
    MergedIs(old(freq[..]), a, b);
    MergeForest(old(freq[..]), old(others[..]), owner, chains, a, b);
  }

  lemma BumpedDeeper(freq: seq<nat>, others: seq<int>, owner: seq<int>, chains: seq<seq<int>>, a: nat, b: nat,
                     sizes: seq<nat>, bumped: seq<nat>)
    requires Forest(freq, others, owner, chains) && |sizes| == |freq|
    requires a < |freq| && b < |freq| && a != b && chains[a] != [] && chains[b] != []
    requires Bumped(sizes, bumped, chains[a] + chains[b])
    ensures Deeper(sizes, bumped, owner, a, b)
  {
    hide Linked;
    assert IsTree(others, owner, a, chains[a]) && IsTree(others, owner, b, chains[b]);
  }

  lemma MergeForestAll(freq: seq<nat>, others: seq<int>, owner: seq<int>,
                       chains: seq<seq<int>>, a: nat, b: nat)
    requires Forest(freq, others, owner, chains)
    requires a < |freq| && b < |freq| && freq[a] != 0 && freq[b] != 0
    ensures |chains| == |freq| && chains[a] != [] && chains[b] != []
  {
  }

  /** The search finds the two smallest counts if both are within its limit. */
  lemma SearchFinds(f: seq<nat>, c1: int, c2: int)
    requires Found(f, -1, c1) && Found(f, c1, c2)
    ensures c2 >= 0 ==>
              0 <= c1 < |f| && Roots(f) >= 2 && c1 == Smallest(f, -1) && c2 == Smallest(f, c1) && f[c2] <= MAX_COUNT
    ensures c2 < 0 ==> forall i :: 0 <= i < |f| ==> CodeSizes(f)[i] == 0
  {
    hide Roots;
    if c2 >= 0 {
      RootsTwo(f, c1, c2);
      TwoSmallest(f);
    } else if Roots(f) >= 2 {
      TwoSmallest(f);
    }
  }

  lemma RootsTwo(f: seq<nat>, i: nat, j: nat)
    requires i < |f| && j < |f| && i != j && f[i] != 0 && f[j] != 0
    ensures Roots(f) >= 2
  {
    RootsUpdate(f, i, 0);
    RootsUpdate(f[i := 0], j, 0);
  }

  lemma RootsOne(f: seq<nat>, root: nat)
    requires root < |f| && forall i :: 0 <= i < |f| ==> (f[i] != 0 <==> i == root)
    ensures Roots(f) < 2
  {
    if Roots(f) >= 2 {
      var t := Another(f, root);
    }
  }

  /** Huffman's procedure: counts are replaced by sums, code sizes result. */
  method AssignCodeSizes(freq: array<nat>) returns (codesize: array<nat>)
    requires freq.Length == SYMBOLS
    modifies freq
    ensures fresh(codesize) && codesize.Length == SYMBOLS
    ensures codesize[..] == CodeSizes(old(freq[..256]) + [1])
    ensures codesize[..] == HuffmanSizes(old(freq[..256]) + [1]) <==>
            LastMerged(old(freq[..256]) + [1]) <= 1_000_000_000
  {
    hide Forest, Roots, LastMerged, Alone, Themselves, Adopt, Found, Smallest, Remaining, Deeper, Merged, HuffmanSizes,
      CodeSizes;
    codesize := new nat[SYMBOLS](i => 0);
    var others := new int[SYMBOLS](i => -1);
    freq[256] := 1;
    ghost var f := old(freq[..256]) + [1];
    assert freq[..] == f;
    SearchedAll(f);
    ghost var owner, chains := Themselves(f), Alone(f);
    FirstForest(f, others[..]);
    AllRemaining(f, codesize[..]);
    while true
      invariant Forest(freq[..], others[..], owner, chains)
      invariant Remaining(f, freq[..], codesize[..], owner)
      invariant |owner| == |f| && forall s :: 0 <= s < |f| ==> (owner[s] == -1 <==> f[s] == 0)
      invariant fresh(codesize) && fresh(others)
      decreases Roots(freq[..])
    {
      var c1 := FindSmallest(freq, -1);
      var c2 := FindSmallest(freq, c1);
      SearchFinds(freq[..], c1, c2);
      if c2 < 0 {
        NoneRemaining(f, freq[..], codesize[..], owner);
        break;
      }
      ghost var was, sizes := freq[..], codesize[..];
      MergeForestAll(freq[..], others[..], owner, chains, c1, c2);
      MergeCounts(freq[..], c1, c2);
      MergeTrees(freq, codesize, others, c1, c2, owner, chains);
      MergeRemaining(f, was, sizes, owner, c1, c2, codesize[..]);
      owner, chains := Adopt(owner, c1, c2), chains[c1 := chains[c1] + chains[c2]][c2 := []];
    }
  }
}
