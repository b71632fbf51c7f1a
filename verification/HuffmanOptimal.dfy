/** From code sizes to a table: counting, limiting to 16 bits, dropping the
    reserved code and sorting the symbols (jchuff.c, T.81 section K.2). */
module HuffmanOptimal {
  import opened Powers
  import opened HuffmanCode
  import opened HuffmanTree
  import opened HuffmanWeights
  import opened Bytes

  const MAX_CLEN: nat := 32

  /** Symbols with code size `k`. */
  function Count(sizes: seq<nat>, k: nat): nat
  {
    if sizes == [] then 0 else (if sizes[0] == k then 1 else 0) + Count(sizes[1..], k)
  }

  /** Symbols with a code. */
  function Coded(sizes: seq<nat>): (c: nat)
    ensures c <= |sizes|
  {
    if sizes == [] then 0 else (if sizes[0] != 0 then 1 else 0) + Coded(sizes[1..])
  }

  /** Share of the codes of up to `n` bits, in units of 2^-n. */
  function Share(sizes: seq<nat>, n: nat): nat
  {
    if sizes == [] then 0
    else (if 0 < sizes[0] <= n then Pow2(n - sizes[0]) else 0) + Share(sizes[1..], n)
  }

  lemma {:induction false} ShareStep(sizes: seq<nat>, n: nat)
    ensures Share(sizes, n + 1) == 2 * Share(sizes, n) + Count(sizes, n + 1)
  {
    if sizes != [] {
      ShareStep(sizes[1..], n);
      assert 0 < sizes[0] <= n ==> Pow2(n + 1 - sizes[0]) == 2 * Pow2(n - sizes[0]);
    }
  }

  lemma {:induction false} ShareZero(sizes: seq<nat>)
    ensures Share(sizes, 0) == 0
  {
    if sizes != [] {
      ShareZero(sizes[1..]);
    }
  }

  /** The running code counts the share of the shorter codes. */
  lemma {:induction false} NextIsShare(b: seq<nat>, sizes: seq<nat>, n: nat)
    requires n < |b| && forall k :: 0 < k <= n ==> b[k] == Count(sizes, k)
    ensures Next(b, n) == Share(sizes, n)
  {
    if n == 0 {
      ShareZero(sizes);
    } else {
      NextIsShare(b, sizes, n - 1);
      ShareStep(sizes, n - 1);
    }
  }

  /** Symbols with a code of up to `n` bits. */
  function Short(sizes: seq<nat>, n: nat): nat
  {
    if sizes == [] then 0 else (if 0 < sizes[0] <= n then 1 else 0) + Short(sizes[1..], n)
  }

  lemma {:induction false} ShortStep(sizes: seq<nat>, n: nat)
    ensures Short(sizes, n + 1) == Short(sizes, n) + Count(sizes, n + 1)
  {
    if sizes != [] {
      ShortStep(sizes[1..], n);
    }
  }

  lemma {:induction false} ShortZero(sizes: seq<nat>)
    ensures Short(sizes, 0) == 0
  {
    if sizes != [] {
      ShortZero(sizes[1..]);
    }
  }

  lemma {:induction false} ShortAll(sizes: seq<nat>, n: nat)
    requires forall s :: 0 <= s < |sizes| ==> sizes[s] <= n
    ensures Short(sizes, n) == Coded(sizes)
  {
    if sizes != [] {
      ShortAll(sizes[1..], n);
    }
  }

  lemma {:induction false} UptoIsShort(b: seq<nat>, sizes: seq<nat>, n: nat)
    requires n < |b| && forall k :: 0 < k <= n ==> b[k] == Count(sizes, k)
    ensures Upto(b, n) == Short(sizes, n)
  {
    if n == 0 {
      ShortZero(sizes);
    } else {
      UptoIsShort(b, sizes, n - 1);
      ShortStep(sizes, n - 1);
    }
  }

  // ------------------------------------------------------ shares of all codes

  lemma {:induction false} WeightShare(f: seq<nat>, sizes: seq<nat>, n: nat)
    requires |f| == |sizes|
    requires forall s :: 0 <= s < |f| ==> sizes[s] <= n && (f[s] != 0 <==> sizes[s] != 0)
    ensures Within(f, sizes, n) && Weight(f, sizes, n) == Share(sizes, n)
  {
    hide Pow2;
    if f != [] {
      WeightShare(f[1..], sizes[1..], n);
    }
  }

  lemma {:induction false} CodedIsRoots(f: seq<nat>, sizes: seq<nat>)
    requires |f| == |sizes|
    requires forall s :: 0 <= s < |f| ==> (f[s] != 0 <==> sizes[s] != 0)
    ensures Coded(sizes) == Roots(f)
  {
    if f != [] {
      CodedIsRoots(f[1..], sizes[1..]);
    }
  }

  /** Code sizes of at most `n` bits that Huffman's procedure gives fill the code space
      exactly. */
  lemma HuffmanShare(f: seq<nat>, n: nat)
    requires Roots(f) >= 2 && forall s :: 0 <= s < |f| ==> HuffmanSizes(f)[s] <= n
    ensures Share(HuffmanSizes(f), n) == Pow2(n) && Coded(HuffmanSizes(f)) == Roots(f)
    ensures forall s :: 0 <= s < |f| ==> (f[s] != 0 <==> HuffmanSizes(f)[s] != 0)
  {
    hide Roots, Share, Coded, HuffmanSizes, Weight;
    var sizes := HuffmanSizes(f);
    forall s | 0 <= s < |f|
      ensures f[s] != 0 <==> sizes[s] != 0
    {
      if f[s] != 0 {
        SizePositive(f, s);
      } else {
        UncountedSize(f, s);
      }
    }
    WeightShare(f, sizes, n);
    HuffmanFull(f, n);
    CodedIsRoots(f, sizes);
  }

  // -------------------------------------------------------- length counts

  lemma {:induction false} CountSnoc(sizes: seq<nat>, c: nat, k: nat)
    ensures Count(sizes + [c], k) == Count(sizes, k) + if c == k then 1 else 0
  {
    if sizes != [] {
      assert (sizes + [c])[1..] == sizes[1..] + [c];
      CountSnoc(sizes[1..], c, k);
    }
  }

  /** Numbers of codes of each length, in bytes. */
  ghost predicate ByteCounts(sizes: seq<nat>, b: seq<nat>)
  {
    |b| == MAX_CLEN + 1 && b[0] == 0 && forall k :: 0 < k <= MAX_CLEN ==> b[k] == Count(sizes, k) % 256
  }

  /** Count the code lengths in bytes, which wrap around. */
  method CountLengths(codesize: array<nat>) returns (ok: bool, bits: array<byte>)
    ensures fresh(bits) && bits.Length == MAX_CLEN + 1
    ensures ok <==> forall s :: 0 <= s < codesize.Length ==> codesize[s] <= MAX_CLEN
    ensures ok ==> ByteCounts(codesize[..], bits[..])
  {
    hide Count;
    bits := new byte[MAX_CLEN + 1](i => 0);
    NoCounts();
    for i := 0 to codesize.Length
      invariant forall s :: 0 <= s < i ==> codesize[s] <= MAX_CLEN
      invariant ByteCounts(codesize[..i], bits[..])
    {
      assert codesize[..i + 1] == codesize[..i] + [codesize[i]];
      forall k | 0 < k <= MAX_CLEN
        ensures Count(codesize[..i + 1], k) == Count(codesize[..i], k) + if codesize[i] == k then 1 else 0
      {
        CountSnoc(codesize[..i], codesize[i], k);
      }
      if codesize[i] != 0 {
        if codesize[i] > MAX_CLEN {
          return false, bits;
        }
        AddTo(bits, codesize[i], 1);
      }
    }
    assert codesize[..codesize.Length] == codesize[..];
    ok := true;
  }

  lemma NoCounts()
    ensures forall k :: Count([], k) == 0
  {
  }

  /** While codes of more than 16 bits are left they come in pairs, and a shorter
      code can be found to become a prefix. */
  lemma PairAndPrefix(b: seq<nat>, i: nat) returns (j: nat)
    requires 17 <= i < |b| && Next(b, i) == Pow2(i) && Upto(b, i) <= SYMBOLS && b[i] > 0
    ensures b[i] >= 2 && 0 < j <= i - 2 && b[j] > 0
  {
    assert b[i] % 2 == 0 by { assert Next(b, i) == 2 * Next(b, i - 1) + b[i] && Pow2(i) == 2 * Pow2(i - 1); }
    assert exists k :: 0 < k <= i - 2 && b[k] != 0 by {
      if forall k :: 0 < k <= i - 2 ==> b[k] == 0 {
        NextDoubles(b, 0, i - 2);
        assert Next(b, i) == 2 * (2 * Next(b, i - 2) + b[i - 1]) + b[i];
        UptoTerm(b, i, i);
        UptoTerm(b, i - 1, i);
        Pow2Small();
        Pow2Monotone(16, i);
        assert false;
      }
    }
    j :| 0 < j <= i - 2 && b[j] != 0;
  }

  /** Two codes of length `i` give way: one moves up, the other joins the code of
      length `j`, which becomes the prefix of two. */
  ghost function Moved(b: seq<nat>, i: nat, j: nat): (c: seq<nat>)
    requires 0 < j <= i - 2 && i < |b| && b[i] >= 2 && b[j] > 0
    ensures |c| == |b|
  {
    var x := b[i := b[i] - 2];
    var y := x[i - 1 := x[i - 1] + 1];
    var z := y[j + 1 := y[j + 1] + 2];
    z[j := z[j] - 1]
  }

  lemma MovedKeeps(b: seq<nat>, i: nat, j: nat)
    requires 0 < j <= i - 2 && i < |b| && b[i] >= 2 && b[j] > 0
    ensures Next(Moved(b, i, j), i) == Next(b, i) && Upto(Moved(b, i, j), i) == Upto(b, i)
    ensures Moved(b, i, j)[i] == b[i] - 2 && Moved(b, i, j)[0] == b[0]
    ensures forall k :: i < k < |b| ==> Moved(b, i, j)[k] == b[k]
  {
    hide Next, Upto;
    var x := b[i := b[i] - 2];
    var y := x[i - 1 := x[i - 1] + 1];
    var z := y[j + 1 := y[j + 1] + 2];
    NextUpdate(b, i, b[i] - 2, i);
    NextUpdate(x, i - 1, x[i - 1] + 1, i);
    NextUpdate(y, j + 1, y[j + 1] + 2, i);
    NextUpdate(z, j, z[j] - 1, i);
    assert Pow2(i - j) == 2 * Pow2(i - (j + 1));
    assert Pow2(0) == 1 && Pow2(1) == 2;
  }

  /** The greatest length up to `n` in use, 0 for none. */
  function Longest(b: seq<nat>, n: nat): (j: nat)
    requires n < |b|
    ensures j <= n && (j != 0 ==> b[j] != 0) && forall k :: j < k <= n ==> b[k] == 0
  {
    if n == 0 || b[n] != 0 then n else Longest(b, n - 1)
  }

  lemma {:induction false} LongestIs(b: seq<nat>, n: nat, j: nat)
    requires 0 < j <= n < |b| && b[j] != 0 && forall k :: j < k <= n ==> b[k] == 0
    ensures Longest(b, n) == j
    decreases n
  {
    if j < n {
      LongestIs(b, n - 1, j);
    }
  }

  /** The adjusted counts: from length `i` down to 17, as long as there are codes of that length,
      two of them give way, with the longest code that is at least two bits shorter. */
  ghost function Limited(b: seq<nat>, i: nat): (c: seq<nat>)
    requires i < |b|
    ensures |c| == |b|
    decreases i, b[i]
  {
    if i <= 16 then b
    else if b[i] == 0 then Limited(b, i - 1)
    else
      var j := Longest(b, i - 2);
      if b[i] == 1 || j == 0 then b else Limited(Moved(b, i, j), i)
  }

  /** One step: two codes of length `i` less, one of length i - 1 more; one of length `j` less, two
      of length j + 1 more; all others as they were. */
  lemma LimitStep(b: seq<nat>, i: nat, j: nat, k: nat)
    requires 0 < j <= i - 2 && i < |b| && b[i] >= 2 && b[j] > 0 && k < |b|
    ensures Moved(b, i, j)[k]
         == b[k] - (if k == i then 2 else 0) + (if k == i - 1 then 1 else 0)
            + (if k == j + 1 then 2 else 0) - (if k == j then 1 else 0)
  {
  }

  /** Nothing changes when no code is longer than 16 bits. */
  lemma {:induction false} LimitedSame(b: seq<nat>, i: nat)
    requires i < |b| && forall k :: 16 < k <= i ==> b[k] == 0
    ensures Limited(b, i) == b
  {
    if i > 16 {
      LimitedSame(b, i - 1);
    }
  }

  /** Codes of up to `n` bits that take all words, not more than there are symbols. */
  ghost predicate FullCode(b: seq<nat>, n: nat)
    requires n < |b|
  {
    Next(b, n) == Pow2(n) && Upto(b, n) <= SYMBOLS
  }

  /** Adjust until no code is longer than 16 bits. */
  method LimitLengths(bits: array<byte>)
    requires bits.Length == MAX_CLEN + 1
    requires FullCode(bits[..], MAX_CLEN) || forall k :: 16 < k <= MAX_CLEN ==> bits[k] == 0
    modifies bits
    ensures bits[..] == Limited(old(bits[..]), MAX_CLEN)
    ensures old(FullCode(bits[..], MAX_CLEN)) ==>
              FullCode(bits[..], 16) && Upto(bits[..], 16) == old(Upto(bits[..], MAX_CLEN))
    ensures (forall k :: 16 < k <= MAX_CLEN ==> old(bits[k]) == 0) ==> bits[..] == old(bits[..])
    ensures bits[0] == old(bits[0])
  {
    hide Next, Upto, Pow2, Moved, FullCode, Longest;
    ghost var was, full := bits[..], FullCode(bits[..], MAX_CLEN);
    if forall k :: 16 < k <= MAX_CLEN ==> was[k] == 0 {
      LimitedSame(was, MAX_CLEN);
    }
    var i := MAX_CLEN;
    while i > 16
      invariant 16 <= i <= MAX_CLEN && Limited(bits[..], i) == Limited(was, MAX_CLEN)
      invariant full ==> FullCode(bits[..], i) && Upto(bits[..], i) == Upto(was, MAX_CLEN)
      invariant !full ==> bits[..] == was
      invariant bits[0] == was[0]
    {
      while bits[i] > 0
        invariant Limited(bits[..], i) == Limited(was, MAX_CLEN)
        invariant full ==> FullCode(bits[..], i) && Upto(bits[..], i) == Upto(was, MAX_CLEN)
        invariant !full ==> bits[..] == was
        invariant bits[0] == was[0]
        decreases bits[i]
      {
        LimitOne(bits, i);
      }
      if full {
        NothingAtTop(bits[..], i);
      }
      i := i - 1;
    }
  }

  lemma NothingAtTop(b: seq<nat>, i: nat)
    requires 0 < i < |b| && b[i] == 0 && FullCode(b, i)
    ensures FullCode(b, i - 1) && Upto(b, i - 1) == Upto(b, i)
  {
  }

  /** Arithmetic on a byte wraps around. */
  method AddTo(bits: array<byte>, k: nat, d: int)
    requires k < bits.Length
    modifies bits
    ensures bits[..] == old(bits[..])[k := (old(bits[k]) as int + d) % 256]
  {
    var n: int := bits[k];
    bits[k] := (n + d) % 256;
  }

  method MoveCodes(bits: array<byte>, i: nat, j: nat)
    requires 0 < j <= i - 2 && i < bits.Length && bits[i] >= 2 && bits[j] > 0
    requires bits[i - 1] <= 254 && bits[j + 1] <= 253 && (j + 1 == i - 1 ==> bits[i - 1] <= 252)
    modifies bits
    ensures bits[..] == Moved(old(bits[..]), i, j)
  {
    AddTo(bits, i, -2);
    AddTo(bits, i - 1, 1);
    AddTo(bits, j + 1, 2);
    AddTo(bits, j, -1);
  }

  method LimitOne(bits: array<byte>, i: nat)
    requires bits.Length == MAX_CLEN + 1 && 16 < i <= MAX_CLEN && bits[i] > 0
    requires FullCode(bits[..], i)
    modifies bits
    ensures FullCode(bits[..], i) && Upto(bits[..], i) == old(Upto(bits[..], i))
    ensures bits[i] == old(bits[i]) - 2 && bits[0] == old(bits[0])
    ensures var was := old(bits[..]);
      0 < Longest(was, i - 2) && was[i] >= 2 && bits[..] == Moved(was, i, Longest(was, i - 2))
  {
    hide Next, Upto, Pow2, Moved, Longest;
    ghost var b := bits[..];
    ghost var found := PairAndPrefix(b, i);
    var j := i - 2;
    while bits[j] == 0
      invariant found <= j <= i - 2 && forall k :: j < k <= i - 2 ==> bits[k] == 0
      decreases j
    {
      j := j - 1;
    }
    LongestIs(b, i - 2, j);
    MovedKeeps(b, i, j);
    MovedBounds(b, i, j);
    MoveCodes(bits, i, j);
  }

  /** A single code takes at most half of the words. */
  lemma {:induction false} OneCode(b: seq<nat>, n: nat)
    requires 0 < n < |b| && Upto(b, n) <= 1
    ensures Next(b, n) <= if Upto(b, n) == 0 then 0 else Pow2(n - 1)
  {
    if n == 1 {
      assert Next(b, 1) == 2 * Next(b, 0) + b[1] && Upto(b, 1) == Upto(b, 0) + b[1];
    } else {
      OneCode(b, n - 1);
    }
  }

  /** There are never 253 codes one bit below the longest: the few others, of which one has
      the length below that, could not fill the code space. */
  lemma NeverCrowded(b: seq<nat>, i: nat)
    requires 17 <= i < |b| && Next(b, i) == Pow2(i) && Upto(b, i) <= SYMBOLS && b[i] >= 2 && b[i - 2] > 0
    ensures b[i - 1] <= 252
  {
    if b[i - 1] >= 253 {
      var c := b[i - 2 := b[i - 2] - 1];
      NextUpdate(b, i - 2, b[i - 2] - 1, i - 2);
      assert Upto(b, i) == Upto(b, i - 2) + b[i - 1] + b[i];
      OneCode(c, i - 2);
      assert Next(b, i) == 2 * (2 * Next(b, i - 2) + b[i - 1]) + b[i];
      assert Pow2(i) == 2 * Pow2(i - 1) && Pow2(i - 1) == 2 * Pow2(i - 2) && Pow2(i - 2) == 2 * Pow2(i - 3);
      assert Pow2(0) == 1;
      Pow2Monotone(14, i - 3);
      Pow2Small();
      assert false;
    }
  }

  /** The bytes do not wrap around. */
  lemma MovedBounds(b: seq<nat>, i: nat, j: nat)
    requires 17 <= i < |b| && 0 < j <= i - 2 && b[i] >= 2 && b[j] > 0 && forall k :: j < k <= i - 2 ==> b[k] == 0
    requires Next(b, i) == Pow2(i) && Upto(b, i) <= SYMBOLS && b[j] <= 255 && b[i] <= 255
    ensures b[i - 1] + 1 <= 255 && b[j + 1] + 2 <= 255 && (j + 1 == i - 1 ==> b[i - 1] + 3 <= 255)
  {
    hide Next, Upto, Pow2;
    UptoThree(b, j, i - 1, i);
    if j == i - 2 {
      NeverCrowded(b, i);
    }
  }

  lemma {:induction false} UptoTwo(b: seq<nat>, j: nat, k: nat, n: nat)
    requires 0 < j < k <= n < |b|
    ensures b[j] + b[k] <= Upto(b, n)
    decreases n
  {
    if k < n {
      UptoTwo(b, j, k, n - 1);
    } else {
      UptoTerm(b, j, n - 1);
    }
  }

  lemma {:induction false} UptoThree(b: seq<nat>, j: nat, k: nat, n: nat)
    requires 0 < j < k < n < |b|
    ensures b[j] + b[k] + b[n] <= Upto(b, n)
  {
    UptoTwo(b, j, k, n - 1);
  }

  /** Give up a code of the greatest length in use, which is `i`; none is left for -1.  (The
      search of the code then goes on below the array.) */
  method DropReserved(bits: array<byte>) returns (i: int)
    requires bits.Length == MAX_CLEN + 1
    modifies bits
    ensures -1 <= i <= 16 && forall k :: i < k <= 16 ==> old(bits[..])[k] == 0
    ensures i == -1 ==> bits[..] == old(bits[..])
    ensures i >= 0 ==> old(bits[i]) > 0 && bits[..] == old(bits[..])[i := old(bits[i]) - 1]
  {
    i := 16;
    while i >= 0 && bits[i] == 0
      invariant -1 <= i <= 16 && forall k :: i < k <= 16 ==> bits[k] == 0
    {
      i := i - 1;
    }
    if i >= 0 {
      AddTo(bits, i, -1);
    }
  }

  /** One code less leaves room at every length. */
  lemma DropMeans(b: seq<nat>, i: int)
    requires |b| == MAX_CLEN + 1 && b[0] == 0 && FullCode(b, 16) && -1 <= i <= 16
    requires (forall k :: i < k <= 16 ==> b[k] == 0) && (i >= 0 ==> b[i] > 0)
    ensures i > 0 && var c := b[i := b[i] - 1];
      Next(c, 16) < Pow2(16) && Upto(c, 16) == Upto(b, 16) - 1
  {
    hide Next, Upto, Pow2;
    SomeLength(b);
    NextUpdate(b, i, b[i] - 1, 16);
  }

  lemma SomeLength(b: seq<nat>)
    requires |b| > 16 && Next(b, 16) == Pow2(16)
    ensures exists k :: 0 < k <= 16 && b[k] != 0
  {
    if forall k :: 0 < k <= 16 ==> b[k] == 0 {
      NextDoubles(b, 0, 16);
      assert false;
    }
  }

  // ---------------------------------------------------------- symbol order

  /** Symbols of code size `k`, in increasing order. */
  function WithSize(sizes: seq<nat>, k: nat): (v: seq<nat>)
    ensures forall j :: 0 <= j < |sizes| ==> (j in v <==> sizes[j] == k)
    ensures forall p :: 0 <= p < |v| ==> v[p] < |sizes|
    ensures forall p, q :: 0 <= p < q < |v| ==> v[p] < v[q]
  {
    if sizes == [] then []
    else
      var n := |sizes| - 1;
      var rest := WithSize(sizes[..n], k);
      if sizes[n] == k then rest + [n] else rest
  }

  /** A shorter code, or one of the same size for a smaller symbol. */
  predicate Precedes(sizes: seq<nat>, a: nat, b: nat)
    requires a < |sizes| && b < |sizes|
  {
    sizes[a] < sizes[b] || (sizes[a] == sizes[b] && a < b)
  }

  /** Symbols of code size 1 to `n`, by size. */
  function ByLength(sizes: seq<nat>, n: nat): (v: seq<nat>)
    ensures forall p :: 0 <= p < |v| ==> v[p] < |sizes| && 0 < sizes[v[p]] <= n
    ensures forall p, q :: 0 <= p < q < |v| ==> Precedes(sizes, v[p], v[q])
  {
    if n == 0 then [] else
      var rest, last := ByLength(sizes, n - 1), WithSize(sizes, n);
      assert forall p :: 0 <= p < |last| ==> last[p] in last;
      rest + last
  }

  lemma {:induction false} ByLengthAll(sizes: seq<nat>, n: nat, j: nat)
    requires j < |sizes| && 0 < sizes[j] <= n
    ensures j in ByLength(sizes, n)
  {
    if sizes[j] < n {
      ByLengthAll(sizes, n - 1, j);
    }
  }

  lemma {:induction false} WithSizeCount(sizes: seq<nat>, k: nat)
    ensures |WithSize(sizes, k)| == Count(sizes, k)
  {
    if sizes == [] {
    } else {
      var n := |sizes| - 1;
      WithSizeCount(sizes[..n], k);
      CountSnoc(sizes[..n], sizes[n], k);
      assert sizes[..n] + [sizes[n]] == sizes;
    }
  }

  lemma {:induction false} ByLengthCount(sizes: seq<nat>, n: nat)
    ensures |ByLength(sizes, n)| == Short(sizes, n) <= |sizes|
  {
    if n == 0 {
      ShortZero(sizes);
    } else {
      ByLengthCount(sizes, n - 1);
      WithSizeCount(sizes, n);
      ShortStep(sizes, n - 1);
    }
    ShortBound(sizes, n);
  }

  lemma {:induction false} ShortBound(sizes: seq<nat>, n: nat)
    ensures Short(sizes, n) <= |sizes|
  {
    if sizes != [] {
      ShortBound(sizes[1..], n);
    }
  }

  /** The list of symbols sorted by code length; 256 is left out. */
  method SortSymbols(codesize: array<nat>, huffval: array<byte>)
    requires codesize.Length == SYMBOLS && huffval.Length == 256
    modifies huffval
    ensures codesize[..] == old(codesize[..])
    ensures var v := ByLength(codesize[..256], MAX_CLEN);
      |v| <= 256 && forall k :: 0 <= k < |v| ==> huffval[k] == v[k]
  {
    hide WithSize, ByLength, Short;
    ghost var sizes := codesize[..256];
    var p := 0;
    ghost var sorted: seq<nat> := [];
    NoneYet(sizes);
    for i := 1 to MAX_CLEN + 1
      invariant codesize[..256] == sizes && codesize[..] == old(codesize[..])
      invariant sorted == ByLength(sizes, i - 1) && |sorted| == p <= 256
      invariant forall k :: 0 <= k < p ==> huffval[k] == sorted[k]
    {
      ghost var before := sorted;
      assert sizes[..0] == [];
      for j := 0 to 256
        invariant codesize[..256] == sizes && codesize[..] == old(codesize[..])
        invariant before + WithSize(sizes[..j], i) == sorted && |sorted| == p <= 256
        invariant forall k :: 0 <= k < p ==> huffval[k] == sorted[k]
      {
        SortStep(sizes, i, j);
        if codesize[j] == i {
          SortRoom(sizes, i, j);
          huffval[p] := j;
          p := p + 1;
          sorted := sorted + [j];
        }
      }
      assert sizes[..256] == sizes;
      SortedSize(sizes, i);
    }
  }

  lemma NoneYet(sizes: seq<nat>)
    ensures ByLength(sizes, 0) == [] && forall i :: WithSize([], i) == []
  {
  }

  lemma SortStep(sizes: seq<nat>, i: nat, j: nat)
    requires j < |sizes|
    ensures WithSize(sizes[..j + 1], i)
         == if sizes[j] == i then WithSize(sizes[..j], i) + [j] else WithSize(sizes[..j], i)
  {
    assert sizes[..j + 1][..j] == sizes[..j];
  }

  /** There is room for every symbol. */
  lemma SortRoom(sizes: seq<nat>, i: nat, j: nat)
    requires 0 < i && j < |sizes| <= 256 && sizes[j] == i
    ensures |ByLength(sizes, i - 1) + WithSize(sizes[..j], i)| < 256
  {
    hide ByLength, WithSize, Short, Count;
    ByLengthCount(sizes, i - 1);
    WithSizeCount(sizes[..j], i);
    RoomLeft(sizes, i, j);
  }

  lemma {:induction false} RoomLeft(sizes: seq<nat>, i: nat, j: nat)
    requires 0 < i && j < |sizes| && sizes[j] == i
    ensures Short(sizes, i - 1) + Count(sizes[..j], i) < |sizes|
  {
    if j == 0 {
      ShortBound(sizes[1..], i - 1);
    } else {
      RoomLeft(sizes[1..], i, j - 1);
      assert sizes[..j][1..] == sizes[1..][..j - 1];
    }
  }

  lemma SortedSize(sizes: seq<nat>, i: nat)
    requires 0 < i && |sizes| <= 256
    ensures ByLength(sizes, i) == ByLength(sizes, i - 1) + WithSize(sizes, i)
    ensures |ByLength(sizes, i)| <= 256
  {
    ByLengthCount(sizes, i);
  }

  // ------------------------------------------------------- the whole table

  /** The first `n` symbols are those with a count, each once, shorter codes of
      the unlimited code first, and smaller symbols first among codes of one size. */
  ghost predicate ListsSymbols(f: seq<nat>, sizes: seq<nat>, vals: seq<nat>, n: nat)
    requires |f| == 256 && |sizes| == 257 && n <= |vals|
  {
    && (forall p :: 0 <= p < n ==> vals[p] < 256 && f[vals[p]] != 0)
    && (forall p, q :: 0 <= p < q < n ==> Precedes(sizes, vals[p], vals[q]))
    && forall j :: 0 <= j < 256 && f[j] != 0 ==> j in vals[..n]
  }

  lemma {:induction false} RootsSnoc(f: seq<nat>, v: nat)
    ensures Roots(f + [v]) == Roots(f) + if v != 0 then 1 else 0
  {
    if f != [] {
      assert (f + [v])[1..] == f[1..] + [v];
      RootsSnoc(f[1..], v);
    }
  }

  /** No code of the unlimited Huffman code exceeds 32 bits. */
  predicate CodesFit(f: seq<nat>)
  {
    forall s :: 0 <= s < |f| + 1 ==> HuffmanSizes(f + [1])[s] <= MAX_CLEN
  }

  /** The number of codes of some length does not fit in a byte. */
  ghost predicate Wraps(f: seq<nat>)
  {
    exists k :: 0 < k <= MAX_CLEN && Count(HuffmanSizes(f + [1]), k) > 255
  }

  /** What is known of the sizes when they fit. */
  lemma SizesFill(f: seq<nat>)
    requires |f| == 256 && Roots(f) > 0 && CodesFit(f)
    ensures var sizes := HuffmanSizes(f + [1]);
      && |sizes| == 257 && Share(sizes, MAX_CLEN) == Pow2(MAX_CLEN) && Coded(sizes) == Roots(f) + 1
      && (forall s :: 0 <= s < 257 ==> sizes[s] <= MAX_CLEN)
      && (forall j :: 0 <= j < 256 ==> (f[j] != 0 <==> sizes[j] != 0))
  {
    hide Share, Coded, Roots, HuffmanSizes, Pow2;
    RootsSnoc(f, 1);
    HuffmanShare(f + [1], MAX_CLEN);
    forall j | 0 <= j < 256
      ensures f[j] != 0 <==> HuffmanSizes(f + [1])[j] != 0
    {
      assert (f + [1])[j] == f[j];
    }
  }

  /** Byte counts that do not wrap describe a full code of one more symbol than `f` counts. */
  lemma CountsFull(f: seq<nat>, b: seq<nat>)
    requires |f| == 256 && Roots(f) > 0 && CodesFit(f) && !Wraps(f)
    requires ByteCounts(HuffmanSizes(f + [1]), b)
    ensures FullCode(b, MAX_CLEN) && Upto(b, MAX_CLEN) == Roots(f) + 1 && b == LengthCounts(HuffmanSizes(f + [1]))
  {
    hide LengthCounts, Roots, Next, Upto, Pow2, Count, Short, Share, Coded, HuffmanSizes, CodesFit;
    var sizes := HuffmanSizes(f + [1]);
    SizesFill(f);
    NextIsShare(b, sizes, MAX_CLEN);
    UptoIsShort(b, sizes, MAX_CLEN);
    ShortAll(sizes, MAX_CLEN);
  }

  lemma ListedCount(f: seq<nat>)
    requires |f| == 256 && Roots(f) > 0 && CodesFit(f)
    ensures var sizes := HuffmanSizes(f + [1]);
      && |sizes| == 257 && |ByLength(sizes[..256], MAX_CLEN)| == Roots(f)
      && (forall s :: 0 <= s < 257 ==> sizes[s] <= MAX_CLEN)
      && (forall j :: 0 <= j < 256 ==> (f[j] != 0 <==> sizes[j] != 0))
  {
    hide ByLength, Roots, Short, HuffmanSizes, CodesFit, Share, Coded;
    SizesFill(f);
    var sizes := HuffmanSizes(f + [1]);
    ByLengthCount(sizes[..256], MAX_CLEN);
    ShortAll(sizes[..256], MAX_CLEN);
    CodedIsRoots(f, sizes[..256]);
  }

  lemma SortedLists(f: seq<nat>, vals: seq<nat>)
    requires |f| == 256 && Roots(f) > 0 && CodesFit(f) && |vals| == 256
    requires var v := ByLength(HuffmanSizes(f + [1])[..256], MAX_CLEN);
      |v| <= 256 && forall k :: 0 <= k < |v| ==> vals[k] == v[k]
    ensures Roots(f) <= 256 && ListsSymbols(f, HuffmanSizes(f + [1]), vals, Roots(f))
  {
    hide ByLength, Roots, HuffmanSizes, CodesFit;
    ListedCount(f);
    var sizes := HuffmanSizes(f + [1]);
    var v := ByLength(sizes[..256], MAX_CLEN);
    assert vals[..|v|] == v;
    forall j | 0 <= j < 256 && f[j] != 0
      ensures j in v
    {
      ByLengthAll(sizes[..256], MAX_CLEN, j);
    }
  }

  // ---------------------------------------------------- counts that wrap around

  /** 255 symbols whose codes, with the reserved one, all have 8 bits. */
  predicate AllEight(f: seq<nat>)
  {
    Roots(f) == 255 && Count(HuffmanSizes(f + [1]), 8) == 256
  }

  /** 256 symbols: one code of one bit, and 256 of nine. */
  predicate OneAndNines(f: seq<nat>)
  {
    && Roots(f) == 256
    && Count(HuffmanSizes(f + [1]), 1) == 1 && Count(HuffmanSizes(f + [1]), 9) == 256
  }

  /** Sizes other than `k`. */
  function Without(sizes: seq<nat>, k: nat): (r: seq<nat>)
    ensures |r| == |sizes| && forall s :: 0 <= s < |r| ==> r[s] == if sizes[s] == k then 0 else sizes[s]
  {
    if sizes == [] then [] else [if sizes[0] == k then 0 else sizes[0]] + Without(sizes[1..], k)
  }

  lemma {:induction false} ClassShare(sizes: seq<nat>, k: nat, n: nat)
    requires 0 < k <= n
    ensures Share(sizes, n) == Count(sizes, k) * Pow2(n - k) + Share(Without(sizes, k), n)
  {
    hide Pow2;
    if sizes != [] {
      ClassShare(sizes[1..], k, n);
      assert Without(sizes, k)[1..] == Without(sizes[1..], k);
      OneMore(Count(sizes[1..], k), Pow2(n - k));
    }
  }

  lemma OneMore(c: nat, p: nat)
    ensures (1 + c) * p == p + c * p && (0 + c) * p == c * p
  {
  }

  lemma {:induction false} ClassCount(sizes: seq<nat>, k: nat)
    requires 0 < k
    ensures Coded(sizes) == Count(sizes, k) + Coded(Without(sizes, k))
    ensures forall i :: 0 < i && i != k ==> Count(Without(sizes, k), i) == Count(sizes, i)
  {
    if sizes != [] {
      ClassCount(sizes[1..], k);
      assert Without(sizes, k)[1..] == Without(sizes[1..], k);
    }
  }

  lemma {:induction false} NoneShare(sizes: seq<nat>, n: nat)
    requires Coded(sizes) == 0
    ensures Share(sizes, n) == 0 && forall i :: 0 < i ==> Count(sizes, i) == 0
  {
    if sizes != [] {
      NoneShare(sizes[1..], n);
    }
  }

  lemma {:induction false} OneShare(sizes: seq<nat>, n: nat) returns (j: nat)
    requires Coded(sizes) == 1 && forall s :: 0 <= s < |sizes| ==> sizes[s] <= n
    ensures 0 < j <= n && Share(sizes, n) == Pow2(n - j) && Count(sizes, j) == 1
    ensures forall i :: 0 < i && i != j ==> Count(sizes, i) == 0
  {
    if sizes[0] == 0 {
      j := OneShare(sizes[1..], n);
    } else {
      j := sizes[0];
      NoneShare(sizes[1..], n);
    }
  }

  /** 256 words of 2^n make all of them, or one half. */
  lemma ClassSize(k: nat, j: nat)
    requires 0 < k <= 32 && 0 < j <= 32
    ensures 256 * Pow2(32 - k) == Pow2(32) ==> k == 8
    ensures 256 * Pow2(32 - k) + Pow2(32 - j) == Pow2(32) ==> k == 9 && j == 1
    ensures 257 * Pow2(32 - k) != Pow2(32)
  {
    Pow2Small();
    assert Pow2(22) == 0x40_0000 && Pow2(23) == 0x80_0000 && Pow2(25) == 0x200_0000;
    assert Pow2(28) == 0x1000_0000;
    assert Pow2(30) == 0x4000_0000 && Pow2(31) == 0x8000_0000 && Pow2(32) == 0x1_0000_0000;
    hide Pow2;
    if k < 8 {
      Pow2Monotone(25, 32 - k);
    } else if k >= 10 {
      Pow2Monotone(32 - k, 22);
    }
    if j > 1 {
      Pow2Monotone(32 - j, 30);
    }
  }

  /** Huffman's codes: all of one length, or one and 256. */
  lemma ClassOf(sizes: seq<nat>, k: nat)
    requires 0 < k <= MAX_CLEN && Count(sizes, k) > 255 && Coded(sizes) <= 257
    requires Share(sizes, MAX_CLEN) == Pow2(MAX_CLEN) && forall s :: 0 <= s < |sizes| ==> sizes[s] <= MAX_CLEN
    ensures Count(sizes, k) == 256
    ensures if Coded(sizes) == 256 then k == 8 && forall i :: 0 < i && i != 8 ==> Count(sizes, i) == 0
            else k == 9 && Coded(sizes) == 257 && Count(sizes, 1) == 1
                 && forall i :: 1 < i && i != 9 ==> Count(sizes, i) == 0
  {
    hide Share, Coded, Count, Pow2;
    ClassShare(sizes, k, MAX_CLEN);
    ClassCount(sizes, k);
    var rest := Without(sizes, k);
    if Coded(rest) == 0 {
      NoneShare(rest, MAX_CLEN);
      ClassSize(k, 1);
    } else {
      var j := OneShare(rest, MAX_CLEN);
      ClassSize(k, j);
    }
  }

  /** When a count of code lengths wraps, for all counts of symbols: exactly for these two
      kinds of codes.  The byte counts are then all zero, but for a code of one bit. */
  lemma WrapsWhen(f: seq<nat>)
    requires |f| == 256 && Roots(f) > 0 && CodesFit(f)
    ensures Wraps(f) <==> AllEight(f) || OneAndNines(f)
    ensures forall b :: ByteCounts(HuffmanSizes(f + [1]), b) && Wraps(f) ==>
              forall k :: 0 <= k <= MAX_CLEN ==> b[k] == if k == 1 && OneAndNines(f) then 1 else 0
  {
    hide Share, Coded, Count, Pow2, Roots, HuffmanSizes;
    SizesFill(f);
    RootsBound(f);
    var sizes := HuffmanSizes(f + [1]);
    if k :| 0 < k <= MAX_CLEN && Count(sizes, k) > 255 {
      ClassOf(sizes, k);
    }
  }

  lemma {:induction false} RootsBound(f: seq<nat>)
    ensures Roots(f) <= |f|
  {
    if f != [] {
      RootsBound(f[1..]);
    }
  }

  // ------------------------------------------------------------ the procedure

  /** How many sizes there are of each length. */
  function LengthCounts(sizes: seq<nat>): (b: seq<nat>)
    ensures |b| == MAX_CLEN + 1 && b[0] == 0 && forall k :: 0 < k <= MAX_CLEN ==> b[k] == Count(sizes, k)
  {
    seq(MAX_CLEN + 1, k requires 0 <= k <= MAX_CLEN => if k == 0 then 0 else Count(sizes, k))
  }

  /** As many codes of each length as the limited code has, less one of the greatest. */
  ghost predicate HasLengths(f: seq<nat>, bits: seq<nat>)
    requires |f| == 256 && |bits| == 17
  {
    var c := Limited(LengthCounts(HuffmanSizes(f + [1])), MAX_CLEN);
    forall k :: 0 < k <= 16 ==> bits[k] == c[k] - if k == Longest(c, 16) then 1 else 0
  }

  /** A legal table of codes for exactly the counted symbols, in the order of their unlimited
      code sizes, with the lengths of the limited code. */
  ghost predicate IsTableOf(f: seq<nat>, bits: seq<nat>, vals: seq<nat>)
    requires |f| == 256 && |bits| == 17 && |vals| == 256
  {
    && Legal(Table(bits, vals), 255) && Upto(bits, 16) == Roots(f) <= 256
    && ListsSymbols(f, HuffmanSizes(f + [1]), vals, Roots(f)) && HasLengths(f, bits)
  }

  lemma FitMeans(f: seq<nat>, sizes: seq<nat>)
    requires sizes == HuffmanSizes(f + [1])
    ensures CodesFit(f) <==> forall s :: 0 <= s < |sizes| ==> sizes[s] <= MAX_CLEN
  {
    hide HuffmanSizes;
  }

  /** The byte counts of a full code, or hardly any. */
  ghost predicate Kinds(f: seq<nat>, b: seq<nat>)
  {
    && |b| == MAX_CLEN + 1 && b[0] == 0
    && if Roots(f) > 0 && !AllEight(f) && !OneAndNines(f)
       then FullCode(b, MAX_CLEN) && Upto(b, MAX_CLEN) == Roots(f) + 1 && b == LengthCounts(HuffmanSizes(f + [1]))
       else !FullCode(b, MAX_CLEN)
            && forall k :: 0 <= k <= MAX_CLEN ==> b[k] == if k == 1 && OneAndNines(f) then 1 else 0
  }

  lemma CountsKinds(f: seq<nat>, b: seq<nat>)
    requires |f| == 256 && CodesFit(f) && ByteCounts(HuffmanSizes(f + [1]), b)
    ensures Kinds(f, b)
  {
    hide Roots, Count, HuffmanSizes, CodesFit, AllEight, OneAndNines, Wraps;
    if Roots(f) == 0 {
      LoneReserved(f, b);
      FewNotFull(b);
    } else {
      WrapsWhen(f);
      if Wraps(f) {
        FewNotFull(b);
      } else {
        CountsFull(f, b);
      }
    }
  }

  /** Without any counted symbol there is no code. */
  lemma LoneReserved(f: seq<nat>, b: seq<nat>)
    requires |f| == 256 && Roots(f) == 0 && ByteCounts(HuffmanSizes(f + [1]), b)
    ensures !AllEight(f) && !OneAndNines(f) && forall k :: 0 <= k <= MAX_CLEN ==> b[k] == 0
  {
    hide Roots, Count;
    RootsSnoc(f, 1);
    var sizes := HuffmanSizes(f + [1]);
    assert forall s :: 0 <= s < 257 ==> sizes[s] == 0;
    hide HuffmanSizes;
    UncodedCount(sizes);
  }

  lemma {:induction false} UncodedCount(sizes: seq<nat>)
    requires forall s :: 0 <= s < |sizes| ==> sizes[s] == 0
    ensures forall k :: 0 < k ==> Count(sizes, k) == 0
  {
    if sizes != [] {
      UncodedCount(sizes[1..]);
    }
  }

  lemma FewNotFull(b: seq<nat>)
    requires |b| == MAX_CLEN + 1 && b[1] <= 1 && forall k :: 1 < k <= MAX_CLEN ==> b[k] == 0
    ensures !FullCode(b, MAX_CLEN)
  {
    NextDoubles(b, 1, MAX_CLEN);
    assert Next(b, 1) == 2 * Next(b, 0) + b[1];
    assert Pow2(MAX_CLEN) == 2 * Pow2(MAX_CLEN - 1);
    MulLe(Next(b, 1), 1, Pow2(MAX_CLEN - 1));
  }

  /** The counts without the reserved code. */
  ghost predicate Dropped(f: seq<nat>, d: seq<nat>)
  {
    && |d| == MAX_CLEN + 1
    && if OneAndNines(f) then forall k :: 0 < k <= 16 ==> d[k] == 0
       else Next(d, 16) < Pow2(16) && Upto(d, 16) == Roots(f)
  }

  lemma DropKinds(f: seq<nat>, b: seq<nat>, limited: seq<nat>, i: int)
    requires Kinds(f, b) && |limited| == MAX_CLEN + 1 && limited[0] == 0 && -1 <= i <= 16
    requires if FullCode(b, MAX_CLEN) then FullCode(limited, 16) && Upto(limited, 16) == Upto(b, MAX_CLEN)
             else limited == b
    requires (forall k :: i < k <= 16 ==> limited[k] == 0) && (i >= 0 ==> limited[i] > 0)
    ensures i == -1 <==> Roots(f) == 0 || AllEight(f)
    ensures i >= 0 ==> Dropped(f, limited[i := limited[i] - 1])
  {
    hide Roots, Next, Upto, Pow2, Count, HuffmanSizes;
    if FullCode(b, MAX_CLEN) {
      DropMeans(limited, i);
    } else {
      assert limited[1] == if OneAndNines(f) then 1 else 0;
    }
  }

  lemma TableMade(f: seq<nat>, d: seq<nat>, bits: seq<nat>, vals: seq<nat>)
    requires |f| == 256 && Roots(f) > 0 && CodesFit(f) && Dropped(f, d)
    requires |bits| == 17 && |vals| == 256 && forall n :: 0 <= n < 17 ==> bits[n] == d[n]
    requires var v := ByLength(HuffmanSizes(f + [1])[..256], MAX_CLEN);
      |v| <= 256 && forall k :: 0 <= k < |v| ==> vals[k] == v[k]
    requires !OneAndNines(f) ==> HasLengths(f, bits)
    ensures if OneAndNines(f) then Upto(bits, 16) == 0 else IsTableOf(f, bits, vals)
  {
    hide Roots, Next, Upto, Pow2, ByLength, HuffmanSizes, CodesFit, OneAndNines, HasLengths;
    SortedLists(f, vals);
    NextSame(d, bits, 16);
    if OneAndNines(f) {
      NextDoubles(bits, 0, 16);
      UptoZero(bits);
    } else {
      RoomyFromFull(bits);
    }
  }

  /** The bytes written are the limited counts, one less at the greatest length. */
  lemma LengthsMade(f: seq<nat>, b: seq<nat>, i: nat, bits: seq<nat>)
    requires |f| == 256 && Kinds(f, b) && !OneAndNines(f) && !AllEight(f) && Roots(f) > 0
    requires var c := Limited(b, MAX_CLEN);
      && 0 < i <= 16 && c[i] > 0 && (forall k :: i < k <= 16 ==> c[k] == 0)
      && |bits| == 17 && forall k :: 0 <= k < 17 ==> bits[k] == c[i := c[i] - 1][k]
    ensures HasLengths(f, bits)
  {
    hide Limited, LengthCounts, HuffmanSizes, Longest, Roots, Count, FullCode, Upto;
    LongestIs(Limited(b, MAX_CLEN), 16, i);
  }

  lemma UptoZero(b: seq<nat>)
    requires 0 < |b|
    ensures Upto(b, 0) == 0
  {
  }

  datatype Outcome =
    | Made
    | TooLong    // error exit: a code of more than 32 bits
    | NoLength   // no length in use: the search for the longest code leaves the array

  /** The table made from the counts: a legal one for exactly the counted symbols, or none
      at all for the two kinds of codes whose counts wrap around. */
  method GenOptimalTable(freq: array<nat>, bits: array<byte>, huffval: array<byte>)
    returns (r: Outcome)
    requires freq.Length == SYMBOLS && bits.Length == 17 && huffval.Length == 256 && bits != huffval
    requires LastMerged(freq[..256] + [1]) <= MAX_COUNT
    modifies freq, bits, huffval
    ensures r == TooLong <==> !CodesFit(old(freq[..256]))
    ensures r == TooLong <==> exists s :: 0 <= s <= 256 && HuffmanSizes(old(freq[..256]) + [1])[s] > 32
    ensures r == NoLength <==> CodesFit(old(freq[..256]))
                               && (old(Roots(freq[..256])) == 0 || AllEight(old(freq[..256])))
    ensures r == Made ==>
              if OneAndNines(old(freq[..256])) then Upto(bits[..], 16) == 0
              else IsTableOf(old(freq[..256]), bits[..], huffval[..])
  {
    hide Roots, LastMerged, Next, Upto, Pow2, Count, ByLength, IsTableOf, HuffmanSizes, CodeSizes, CodesFit, Wraps,
      AllEight, OneAndNines, FullCode, HasLengths, Limited, Longest;
    ghost var f := freq[..256];
    var codesize := AssignCodeSizes(freq);
    var ok, counts := CountLengths(codesize);
    FitMeans(f, codesize[..]);
    if !ok {
      return TooLong;
    }
    ghost var b := counts[..];
    CountsKinds(f, b);
    LimitLengths(counts);
    ghost var limited := counts[..];
    var i := DropReserved(counts);
    DropKinds(f, b, limited, i);
    if i < 0 {
      return NoLength;
    }
    SortSymbols(codesize, huffval);
    assert codesize[..256] == HuffmanSizes(f + [1])[..256];
    ghost var vals, dropped := huffval[..], counts[..];
    for k := 0 to 17
      invariant forall n :: 0 <= n < k ==> bits[n] == counts[n]
      invariant huffval[..] == vals && counts[..] == dropped
    {
      bits[k] := counts[k];
    }
    if !OneAndNines(f) {
      LengthsMade(f, b, i, bits[..]);
    }
    TableMade(f, dropped, bits[..], vals);
    r := Made;
  }
}
