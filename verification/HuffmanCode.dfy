/** Canonical Huffman codes (T.81 Annex C): code lengths given by counts, codes
    assigned in increasing order. */
module HuffmanCode {
  import opened Powers
  import opened BitStreams

  /** One more than the last code of length `n`, where `b[k]` codes have length
      `k`: the running code of Figure C.2. */
  function Next(b: seq<nat>, n: nat): nat
    requires n < |b|
  {
    if n == 0 then 0 else 2 * Next(b, n - 1) + b[n]
  }

  /** Number of codes of length at most `n`. */
  function Upto(b: seq<nat>, n: nat): nat
    requires n < |b|
  {
    if n == 0 then 0 else Upto(b, n - 1) + b[n]
  }

  lemma {:induction false} NextSame(b: seq<nat>, c: seq<nat>, n: nat)
    requires n < |b| && n < |c| && forall k :: 0 < k <= n ==> b[k] == c[k]
    ensures Next(b, n) == Next(c, n) && Upto(b, n) == Upto(c, n)
  {
    if n != 0 {
      NextSame(b, c, n - 1);
    }
  }

  /** No codes beyond length `m`: the running code only doubles. */
  lemma {:induction false} NextDoubles(b: seq<nat>, m: nat, n: nat)
    requires m <= n < |b| && forall k :: m < k <= n ==> b[k] == 0
    ensures Next(b, n) == Next(b, m) * Pow2(n - m) && Upto(b, n) == Upto(b, m)
    decreases n
  {
    if m < n {
      NextDoubles(b, m, n - 1);
      MulShuffle(Next(b, m), Pow2(n - 1 - m), 2);
    }
  }

  lemma {:induction false} NextGrows(b: seq<nat>, m: nat, n: nat)
    requires m <= n < |b|
    ensures Next(b, m) * Pow2(n - m) <= Next(b, n) && Upto(b, m) <= Upto(b, n)
    decreases n
  {
    if m < n {
      NextGrows(b, m, n - 1);
      MulShuffle(Next(b, m), Pow2(n - 1 - m), 2);
    }
  }

  lemma {:induction false} NextUpdate(b: seq<nat>, k: nat, v: nat, n: nat)
    requires 0 < k <= n < |b|
    ensures Next(b[k := v], n) == Next(b, n) + (v - b[k]) * Pow2(n - k)
    ensures Upto(b[k := v], n) == Upto(b, n) + v - b[k]
    decreases n
  {
    if k == n {
      NextSame(b[k := v], b, n - 1);
    } else {
      NextUpdate(b, k, v, n - 1);
      MulShuffle(v - b[k], Pow2(n - 1 - k), 2);
    }
  }

  lemma {:induction false} UptoTerm(b: seq<nat>, k: nat, n: nat)
    requires 0 < k <= n < |b|
    ensures b[k] <= Upto(b, n)
    decreases n
  {
    if k < n {
      UptoTerm(b, k, n - 1);
    }
  }

  // ------------------------------------------------------------------ tables

  /** A JHUFF_TBL: number of codes of each length 1 to 16, and the symbols in
      order of increasing code length. */
  datatype Table = Table(bits: seq<nat>, vals: seq<nat>)

  predicate WellFormed(t: Table)
  {
    |t.bits| == 17 && |t.vals| == 256
  }

  /** Each length leaves a code unused, so none is all ones. */
  ghost predicate Roomy(b: seq<nat>)
    requires |b| == 17
  {
    forall l :: 0 < l <= 16 ==> Next(b, l) < Pow2(l)
  }

  /** The table defines a prefix code for distinct symbols up to `max`. */
  ghost predicate Legal(t: Table, max: nat)
    requires WellFormed(t)
  {
    && Upto(t.bits, 16) <= 256 && Roomy(t.bits)
    && (forall p :: 0 <= p < Upto(t.bits, 16) ==> t.vals[p] <= max)
    && forall p, q :: 0 <= p < q < Upto(t.bits, 16) ==> t.vals[p] != t.vals[q]
  }

  /** A code left at the full length leaves one at every length. */
  lemma RoomyFromFull(b: seq<nat>)
    requires |b| == 17 && Next(b, 16) < Pow2(16)
    ensures Roomy(b)
  {
    forall l | 0 < l <= 16
      ensures Next(b, l) < Pow2(l)
    {
      NextGrows(b, l, 16);
      Pow2Add(l, 16 - l);
      MulCompare(Pow2(l), Next(b, l), Pow2(16 - l));
    }
  }

  // ------------------------------------------------------------------- codes

  /** Length of code number `p`. */
  function LenOf(b: seq<nat>, p: nat, n: nat): (l: nat)
    requires n < |b| && p < Upto(b, n)
    ensures 0 < l <= n && Upto(b, l - 1) <= p < Upto(b, l)
  {
    if p < Upto(b, n - 1) then LenOf(b, p, n - 1) else n
  }

  lemma {:induction false} LenIs(b: seq<nat>, p: nat, l: nat, n: nat)
    requires 0 < l <= n < |b| && Upto(b, l - 1) <= p < Upto(b, l)
    ensures p < Upto(b, n) && LenOf(b, p, n) == l
    decreases n
  {
    NextGrows(b, l, n);
    if l < n {
      NextGrows(b, l, n - 1);
      LenIs(b, p, l, n - 1);
    }
  }

  predicate Numbered(b: seq<nat>, p: nat)
  {
    |b| == 17 && p < Upto(b, 16)
  }

  /** Code number `p`: consecutive values for the codes of one length. */
  function CodeOf(b: seq<nat>, p: nat): (c: nat)
    requires Numbered(b, p)
    ensures var l := LenOf(b, p, 16); 2 * Next(b, l - 1) <= c < Next(b, l)
  {
    var l := LenOf(b, p, 16);
    2 * Next(b, l - 1) + (p - Upto(b, l - 1))
  }

  function CodeWord(b: seq<nat>, p: nat): (w: seq<bit>)
    requires Numbered(b, p)
    ensures |w| == LenOf(b, p, 16)
  {
    Word(CodeOf(b, p), LenOf(b, p, 16))
  }

  /** The first length from `l` on at which the bits are below the running code:
      bit-serial decoding (Figure F.16); 17 if there is none. */
  function ScanLen(b: seq<nat>, s: seq<bit>, pos: nat, l: nat): (r: nat)
    requires |b| == 17 && l <= 17
    ensures l <= r <= 17 && (r <= 16 ==> Window(s, pos, r) < Next(b, r))
    ensures forall k :: l <= k < r ==> Next(b, k) <= Window(s, pos, k)
    decreases 17 - l
  {
    if l == 17 || Window(s, pos, l) < Next(b, l) then l else ScanLen(b, s, pos, l + 1)
  }

  /** Bits below the running code stay below it. */
  lemma {:induction false} BelowStays(b: seq<nat>, s: seq<bit>, pos: nat, m: nat, n: nat)
    requires m < n < |b| && Window(s, pos, m) < Next(b, m)
    ensures Window(s, pos, n) < 2 * Next(b, n - 1)
    decreases n
  {
    if m < n - 1 {
      BelowStays(b, s, pos, m, n - 1);
    }
  }

  /** Where code word `p` is in the stream, scanning stops exactly at its end. */
  lemma ScanWord(b: seq<nat>, s: seq<bit>, pos: nat, p: nat)
    requires Numbered(b, p) && Roomy(b) && Holds(s, pos, CodeWord(b, p))
    ensures ScanLen(b, s, pos, 1) == LenOf(b, p, 16)
    ensures Window(s, pos, LenOf(b, p, 16)) == CodeOf(b, p)
  {
    hide Next, Upto, Word, Window, BitVal, Holds;
    var l, w := LenOf(b, p, 16), CodeWord(b, p);
    HoldsWindow(s, pos, w, l);
    assert w[..l] == w;
    WordVal(CodeOf(b, p), l);
    var r := ScanLen(b, s, pos, 1);
    if r < l {
      BelowStays(b, s, pos, r, l);
    }
  }

  /** No code word is a prefix of another one. */
  lemma PrefixFree(b: seq<nat>, p: nat, q: nat)
    requires Numbered(b, p) && Numbered(b, q) && Roomy(b) && p != q
    ensures !(CodeWord(b, p) <= CodeWord(b, q))
  {
    hide Next, Upto, Word, Window, ScanLen, Roomy;
    if CodeWord(b, p) <= CodeWord(b, q) {
      ScanWord(b, CodeWord(b, q), 0, p);
      ScanWord(b, CodeWord(b, q), 0, q);
      assert false;
    }
  }

  /** No code word consists of ones only. */
  lemma NotAllOnes(b: seq<nat>, p: nat)
    requires Numbered(b, p) && Roomy(b)
    ensures CodeOf(b, p) < Pow2(LenOf(b, p, 16)) - 1
  {
  }

  /** The first code is all zeros, and every other one follows the one before it: one is added, and
      a zero bit is appended for every bit by which it is longer. */
  lemma CodesFollow(b: seq<nat>, p: nat)
    requires Numbered(b, p)
    ensures p == 0 ==> CodeOf(b, p) == 0
    ensures p > 0 ==>
      && LenOf(b, p - 1, 16) <= LenOf(b, p, 16)
      && CodeOf(b, p) == (CodeOf(b, p - 1) + 1) * Pow2(LenOf(b, p, 16) - LenOf(b, p - 1, 16))
  {
    hide Next, Upto, LenOf, Pow2;
    var l := LenOf(b, p, 16);
    if p == 0 {
      NoneBefore(b, l - 1);
    } else {
      var k := LenOf(b, p - 1, 16);
      if l < k {
        NextGrows(b, l, k - 1);
      } else if k < l {
        NextGrows(b, k, l - 1);
        NoneBetween(b, k, l - 1);
        LengthStep(b, k);
        Pow2Add(1, l - 1 - k);
        Pow2One();
        MulShuffle(Next(b, k), Pow2(l - 1 - k), 2);
      } else {
        Pow2One();
      }
    }
  }

  lemma LengthStep(b: seq<nat>, n: nat)
    requires 0 < n < |b|
    ensures Next(b, n) == 2 * Next(b, n - 1) + b[n] && Upto(b, n) == Upto(b, n - 1) + b[n]
  {
  }

  lemma Pow2One()
    ensures Pow2(0) == 1 && Pow2(1) == 2
  {
  }

  lemma {:induction false} NoneBefore(b: seq<nat>, n: nat)
    requires n < |b| && Upto(b, n) == 0
    ensures Next(b, n) == 0
  {
    if n != 0 {
      NoneBefore(b, n - 1);
    }
  }

  lemma {:induction false} NoneBetween(b: seq<nat>, m: nat, n: nat)
    requires m <= n < |b| && Upto(b, m) == Upto(b, n)
    ensures Next(b, n) == Next(b, m) * Pow2(n - m)
    decreases n
  {
    if m < n {
      NextGrows(b, m, n - 1);
      NoneBetween(b, m, n - 1);
      MulShuffle(Next(b, m), Pow2(n - 1 - m), 2);
    }
  }

  /** Decoding one symbol at `pos` by the table: the symbol and the position
      after it.  Bits that are no code word give 0 after seventeen bits. */
  function Decode(t: Table, s: seq<bit>, pos: nat): (nat, nat)
    requires WellFormed(t) && Upto(t.bits, 16) <= 256
  {
    var l := ScanLen(t.bits, s, pos, 1);
    if l > 16 then (0, pos + 17)
    else (t.vals[SymbolIndex(t.bits, s, pos, l)], pos + l)
  }

  function SymbolIndex(b: seq<nat>, s: seq<bit>, pos: nat, l: nat): (p: nat)
    requires |b| == 17 && 0 < l <= 16
    requires Window(s, pos, l) < Next(b, l) && (l > 1 ==> Next(b, l - 1) <= Window(s, pos, l - 1))
    ensures p < Upto(b, 16)
  {
    NextGrows(b, l, 16);
    Upto(b, l - 1) + Window(s, pos, l) - 2 * Next(b, l - 1)
  }

  lemma DecodeAt(t: Table, s: seq<bit>, pos: nat, l: nat)
    requires WellFormed(t) && Upto(t.bits, 16) <= 256 && 0 < l <= 16
    requires ScanLen(t.bits, s, pos, 1) == ScanLen(t.bits, s, pos, l)
    requires Window(s, pos, l) < Next(t.bits, l)
    ensures var p := Upto(t.bits, l - 1) + Window(s, pos, l) - 2 * Next(t.bits, l - 1);
      0 <= p < Upto(t.bits, 16) && Decode(t, s, pos) == (t.vals[p], pos + l)
  {
    hide Next, Upto, Window;
    assert ScanLen(t.bits, s, pos, l) == l;
    assert SymbolIndex(t.bits, s, pos, l) < Upto(t.bits, 16);
  }

  /** A symbol's code word decodes to the symbol. */
  lemma DecodeWord(t: Table, s: seq<bit>, pos: nat, p: nat)
    requires WellFormed(t) && Numbered(t.bits, p) && Roomy(t.bits) && Upto(t.bits, 16) <= 256
    requires Holds(s, pos, CodeWord(t.bits, p))
    ensures Decode(t, s, pos) == (t.vals[p], pos + |CodeWord(t.bits, p)|)
  {
    hide Next, Upto, Word, Window, ScanLen, Holds;
    ScanWord(t.bits, s, pos, p);
  }
}
