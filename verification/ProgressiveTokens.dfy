/** Symbols of progressive AC scans (T.81 sections G.1.2.2 and G.1.2.3): end-of-band
    runs over blocks, and correction bits of coefficients that were nonzero before. */
module ProgressiveTokens {
  import opened Powers
  import opened BitStreams
  import opened Coefficients
  import opened HuffmanBlock

  const MAX_RUN: nat := 0x7FFF
  const MAX_CORR_BITS: nat := 1000

  /** In a refinement scan: nonzero before this scan. */
  predicate Old(refine: bool, x: int)
  {
    refine && Abs(x) > 1
  }

  /** To be coded with a symbol of its own. */
  predicate Fresh(refine: bool, x: int)
  {
    x != 0 && !Old(refine, x)
  }

  /** Number of coefficients up to the last fresh one. */
  function FrontLen(refine: bool, c: seq<int>): (n: nat)
    ensures n <= |c| && (n > 0 ==> Fresh(refine, c[n - 1]))
    ensures forall j :: n <= j < |c| ==> !Fresh(refine, c[j])
  {
    if c == [] || Fresh(refine, c[|c| - 1]) then |c| else FrontLen(refine, c[..|c| - 1])
  }

  function Correction(refine: bool, x: int): (s: seq<bit>)
    ensures |s| == if Old(refine, x) then 1 else 0
    ensures Old(refine, x) ==> s[0] == Abs(x) % 2
  {
    if Old(refine, x) then [Abs(x) % 2] else []
  }

  function Corrections(refine: bool, c: seq<int>): (s: seq<bit>)
    ensures |s| <= |c|
  {
    if c == [] then [] else Correction(refine, c[0]) + Corrections(refine, c[1..])
  }

  function BitTokens(s: seq<bit>): (ks: seq<Token>)
    ensures |ks| == |s| && forall i :: 0 <= i < |s| ==> ks[i] == Extra(s[i], 1)
  {
    if s == [] then [] else [Extra(s[0], 1)] + BitTokens(s[1..])
  }

  /** Runs of sixteen zeros; the pending correction bits follow the first one. */
  function ZrlTokens(r: nat, br: seq<bit>): seq<Token>
  {
    if r > 15 then [AcSymbol(0xF0)] + (BitTokens(br) + Zrls(r - 16)) else []
  }

  function LeftOver(r: nat, br: seq<bit>): seq<bit>
  {
    if r > 15 then [] else br
  }

  /** The coefficients `c`, the last of them fresh, after `r` zeros with correction
      bits `br` pending. */
  function FrontTokens(refine: bool, c: seq<int>, r: nat, br: seq<bit>): seq<Token>
    decreases |c|
  {
    if c == [] then []
    else if c[0] == 0 then FrontTokens(refine, c[1..], r + 1, br)
    else if Old(refine, c[0]) then
      ZrlTokens(r, br) + FrontTokens(refine, c[1..], r % 16, LeftOver(r, br) + [Abs(c[0]) % 2])
    else
      ZrlTokens(r, br)
      + (Coef(r % 16, c[0]) + (BitTokens(LeftOver(r, br)) + FrontTokens(refine, c[1..], 0, [])))
  }

  /** An end-of-band run of `run` blocks and their correction bits. */
  function Eob(run: nat, s: seq<bit>): seq<Token>
  {
    if run == 0 then []
    else
      var n := Levels(run);
      [AcSymbol(16 * n)] + ((if n == 0 then [] else [Extra(run, n)]) + BitTokens(s))
  }

  /** Blocks whose end-of-band has not been sent yet, and their correction bits. */
  datatype Pending = Pending(run: nat, bits: seq<bit>)

  const NONE: Pending := Pending(0, [])

  predicate Full(p: Pending)
  {
    p.run == MAX_RUN || |p.bits| > MAX_CORR_BITS - 64 + 1
  }

  /** Between blocks. */
  predicate Within(p: Pending)
  {
    p.run < MAX_RUN && |p.bits| <= MAX_CORR_BITS - 64 + 1 && (p.run == 0 ==> p.bits == [])
  }

  /** The end of a band without fresh coefficients. */
  function AddTail(refine: bool, p: Pending, c: seq<int>): Pending
  {
    if c == [] then p else Pending(p.run + 1, p.bits + Corrections(refine, c))
  }

  /** Tokens of a band before its end is counted. */
  function BandFront(refine: bool, p: Pending, c: seq<int>): seq<Token>
  {
    var n := FrontLen(refine, c);
    if n == 0 then [] else Eob(p.run, p.bits) + FrontTokens(refine, c[..n], 0, [])
  }

  function BandTail(refine: bool, p: Pending, c: seq<int>): Pending
  {
    var n := FrontLen(refine, c);
    AddTail(refine, if n == 0 then p else NONE, c[n..])
  }

  function BandTokens(refine: bool, p: Pending, c: seq<int>): seq<Token>
  {
    var q := BandTail(refine, p, c);
    BandFront(refine, p, c) + if Full(q) then Eob(q.run, q.bits) else []
  }

  /** What is pending after a band. */
  function BandPending(refine: bool, p: Pending, c: seq<int>): (q: Pending)
    ensures Within(p) && |c| <= 63 ==> Within(q)
  {
    var q := BandTail(refine, p, c);
    if Full(q) then NONE else q
  }

  /** The run length fits its symbol, and the correction bits always fit the buffer. */
  lemma PendingBounds(refine: bool, p: Pending, c: seq<int>)
    requires Within(p) && |c| <= 63
    ensures BandTail(refine, p, c).run <= MAX_RUN && |BandTail(refine, p, c).bits| <= MAX_CORR_BITS
    ensures BandTail(refine, p, c).run > 0 ==> Levels(BandTail(refine, p, c).run) <= 14
  {
    var q := BandTail(refine, p, c);
    if q.run > 0 {
      Pow2Small();
      Pow2Add(8, 7);
      LevelsLimit(q.run, 15);
    }
  }

  lemma {:induction false} CorrectionsAppend(refine: bool, c: seq<int>, d: seq<int>)
    ensures Corrections(refine, c + d) == Corrections(refine, c) + Corrections(refine, d)
    decreases |c|
  {
    if c == [] {
      assert c + d == d;
    } else {
      assert (c + d)[1..] == c[1..] + d;
      CorrectionsAppend(refine, c[1..], d);
    }
  }

  lemma {:induction false} CorrectionsOfZeros(refine: bool, n: nat)
    ensures Corrections(refine, Zeros(n)) == []
  {
    if n != 0 {
      CorrectionsOfZeros(refine, n - 1);
      assert Zeros(n)[1..] == Zeros(n - 1);
    }
  }
}
