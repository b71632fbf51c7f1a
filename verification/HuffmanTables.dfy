/** Derived Huffman tables: codes by symbol for the encoder (jchuff.c), limits,
    offsets and the lookahead table for the decoder (jdhuff.c). */
module HuffmanTables {
  import opened Powers
  import opened BitStreams
  import opened HuffmanCode

  lemma UptoStep(b: seq<nat>, l: nat)
    requires l < |b|
    ensures l == 0 ==> Upto(b, l) == 0 && Next(b, l) == 0
    ensures l != 0 ==> Upto(b, l) == Upto(b, l - 1) + b[l] && Next(b, l) == 2 * Next(b, l - 1) + b[l]
  {
  }

  /** Figure C.1: the code sizes in order, unless there are more than 256. */
  method GenerateSizes(b: seq<nat>) returns (ok: bool, huffsize: array<nat>, n: nat)
    requires |b| == 17
    ensures fresh(huffsize) && huffsize.Length == 257
    ensures ok <==> Upto(b, 16) <= 256
    ensures ok ==> n == Upto(b, 16) && huffsize[n] == 0
    ensures ok ==> forall p :: 0 <= p < n ==> huffsize[p] == LenOf(b, p, 16)
  {
    hide LenOf, Upto, Next;
    huffsize := new nat[257];
    var p := 0;
    UptoStep(b, 0);
    for l := 1 to 17
      invariant p == Upto(b, l - 1) <= 256
      invariant forall k :: 0 <= k < p ==> k < Upto(b, 16) && huffsize[k] == LenOf(b, k, 16)
    {
      var i := b[l];
      UptoStep(b, l);
      NextGrows(b, l, 16);
      if p + i > 256 {
        return false, huffsize, p;
      }
      while i > 0
        invariant p + i == Upto(b, l) <= 256 && Upto(b, l - 1) <= p
        invariant forall k :: 0 <= k < p ==> k < Upto(b, 16) && huffsize[k] == LenOf(b, k, 16)
      {
        LenIs(b, p, l, 16);
        huffsize[p] := l;
        p, i := p + 1, i - 1;
      }
    }
    huffsize[p] := 0;
    ok, n := true, p;
  }

  lemma {:induction false} NothingUpto(b: seq<nat>, n: nat)
    requires n < |b| && Upto(b, n) == 0
    ensures Next(b, n) == 0 && forall k :: 0 < k <= n ==> b[k] == 0 && Next(b, k) == 0
  {
    if n != 0 {
      NothingUpto(b, n - 1);
    }
  }

  lemma StartSize(b: seq<nat>)
    requires |b| == 17
    ensures 0 < Upto(b, 16) ==>
              var l := LenOf(b, 0, 16);
              && Upto(b, l - 1) == 0 && Next(b, l - 1) == 0
              && forall k :: 0 < k < l ==> Next(b, k) < Pow2(k)
  {
    if 0 < Upto(b, 16) {
      NothingUpto(b, LenOf(b, 0, 16) - 1);
    }
  }

  lemma CodeIs(b: seq<nat>, p: nat, l: nat)
    requires Numbered(b, p) && LenOf(b, p, 16) == l
    ensures Upto(b, l - 1) <= p < Upto(b, l)
    ensures CodeOf(b, p) == 2 * Next(b, l - 1) + (p - Upto(b, l - 1))
  {
  }

  /** All codes of length `l` have been made when the next one is longer. */
  lemma SizeDone(b: seq<nat>, p: nat, l: nat)
    requires |b| == 17 && 0 < l <= 16 && Upto(b, l - 1) <= p <= Upto(b, l)
    requires p < Upto(b, 16) ==> LenOf(b, p, 16) != l
    ensures p == Upto(b, l) && (p < Upto(b, 16) ==> l < LenOf(b, p, 16))
    ensures Next(b, l) == 2 * Next(b, l - 1) + (p - Upto(b, l - 1))
  {
    NextGrows(b, l, 16);
    if p < Upto(b, l) {
      LenIs(b, p, l, 16);
    }
    if p < Upto(b, 16) && LenOf(b, p, 16) <= l {
      NextGrows(b, LenOf(b, p, 16), l);
    }
  }

  lemma RoomyAfter(b: seq<nat>, si: nat)
    requires |b| == 17 && si <= 17
    requires 0 < si ==> Upto(b, si - 1) == Upto(b, 16) && forall l :: 0 < l < si ==> Next(b, l) < Pow2(l)
    requires si == 0 ==> Upto(b, 16) == 0
    ensures Roomy(b)
  {
    var m: nat := if si == 0 then 0 else si - 1;
    forall l | 0 < l <= 16
      ensures Next(b, l) < Pow2(l)
    {
      if m < l {
        NextGrows(b, m, l);
        NoneAfter(b, m, l);
        NextDoubles(b, m, l);
        Pow2Add(m, l - m);
        MulLt(Next(b, m), Pow2(m), Pow2(l - m));
      }
    }
  }

  lemma {:induction false} NoneAfter(b: seq<nat>, m: nat, l: nat)
    requires |b| == 17 && m <= l <= 16 && Upto(b, m) == Upto(b, 16)
    ensures Upto(b, l) == Upto(b, m) && forall k :: m < k <= l ==> b[k] == 0
    decreases l
  {
    NextGrows(b, m, l);
    NextGrows(b, l, 16);
    if m < l {
      NoneAfter(b, m, l - 1);
    }
  }

  /** Codes and sizes for the first `p` numbers. */
  ghost predicate CodedUpto(b: seq<nat>, n: nat, sizes: seq<nat>, codes: seq<nat>, p: nat)
    requires |b| == 17
  {
    && |sizes| == |codes| == 257 && p <= n == Upto(b, 16) <= 256 && sizes[n] == 0
    && (forall k :: 0 <= k < n ==> sizes[k] == LenOf(b, k, 16))
    && forall k :: 0 <= k < p ==> codes[k] == CodeOf(b, k)
  }

  lemma CodedNext(b: seq<nat>, n: nat, sizes: seq<nat>, codes: seq<nat>, p: nat, code: nat)
    requires |b| == 17 && CodedUpto(b, n, sizes, codes, p) && sizes[p] != 0 && code == CodeOf(b, p)
    ensures CodedUpto(b, n, sizes, codes[p := code], p + 1)
  {
  }

  lemma CodedSize(b: seq<nat>, n: nat, sizes: seq<nat>, codes: seq<nat>, p: nat)
    requires |b| == 17 && CodedUpto(b, n, sizes, codes, p)
    ensures p <= n < |sizes| == |codes| == 257 && n == Upto(b, 16) <= 256
    ensures p < n ==> sizes[p] == LenOf(b, p, 16) != 0
    ensures p == n ==> sizes[p] == 0
  {
  }

  /** All codes of one size. */
  method CodesOfSize(b: seq<nat>, ghost n: nat, huffsize: array<nat>, huffcode: array<nat>, p0: nat, si: nat,
                     code0: nat) returns (p: nat, code: nat)
    requires |b| == 17 && huffcode != huffsize && 0 < si <= 16
    requires CodedUpto(b, n, huffsize[..], huffcode[..], p0)
    requires p0 == Upto(b, si - 1) && code0 == 2 * Next(b, si - 1)
    modifies huffcode
    ensures huffsize[..] == old(huffsize[..]) && CodedUpto(b, n, huffsize[..], huffcode[..], p)
    ensures p == Upto(b, si) && code == Next(b, si) && (p < n ==> si < LenOf(b, p, 16))
  {
    hide LenOf, CodeOf, Upto, Next, CodedUpto;
    NextGrows(b, si, 16);
    UptoStep(b, si);
    CodedSize(b, n, huffsize[..], huffcode[..], p0);
    p, code := p0, code0;
    while huffsize[p] == si
      invariant huffsize[..] == old(huffsize[..]) && CodedUpto(b, n, huffsize[..], huffcode[..], p)
      invariant Upto(b, si - 1) <= p <= Upto(b, si)
      invariant code == 2 * Next(b, si - 1) + (p - Upto(b, si - 1))
      decreases n - p
    {
      CodedSize(b, n, huffsize[..], huffcode[..], p);
      CodeIs(b, p, si);
      CodedNext(b, n, huffsize[..], huffcode[..], p, code);
      ghost var codes := huffcode[..];
      huffcode[p] := code;
      assert huffcode[..] == codes[p := code];
      p, code := p + 1, code + 1;
      CodedSize(b, n, huffsize[..], huffcode[..], p);
    }
    CodedSize(b, n, huffsize[..], huffcode[..], p);
    SizeDone(b, p, si);
  }

  /** Figure C.2: the codes themselves, unless some length leaves no code unused. */
  method GenerateCodes(b: seq<nat>, huffsize: array<nat>, ghost n: nat)
    returns (ok: bool, huffcode: array<nat>)
    requires |b| == 17 && huffsize.Length == 257 && n == Upto(b, 16) <= 256 && huffsize[n] == 0
    requires forall p :: 0 <= p < n ==> huffsize[p] == LenOf(b, p, 16)
    ensures fresh(huffcode) && huffcode.Length == 257 && huffsize[..] == old(huffsize[..])
    ensures ok <==> Roomy(b)
    ensures ok ==> CodedUpto(b, n, huffsize[..], huffcode[..], n)
  {
    huffcode := new nat[257];
    assert CodedUpto(b, n, huffsize[..], huffcode[..], 0);
    hide LenOf, CodeOf, Upto, Next, CodedUpto;
    var code: nat, si: nat, p: nat := 0, huffsize[0], 0;
    StartSize(b);
    CodedSize(b, n, huffsize[..], huffcode[..], 0);
    while huffsize[p] != 0
      invariant huffsize[..] == old(huffsize[..]) && CodedUpto(b, n, huffsize[..], huffcode[..], p)
      invariant p <= n && si <= 17 && (p < n ==> 0 < si <= LenOf(b, p, 16)) && (p != 0 ==> 0 < si)
      invariant 0 < si ==> p == Upto(b, si - 1) && code == 2 * Next(b, si - 1)
      invariant 0 < si ==> forall l :: 0 < l < si ==> Next(b, l) < Pow2(l)
      decreases 17 - si
    {
      CodedSize(b, n, huffsize[..], huffcode[..], p);
      p, code := CodesOfSize(b, n, huffsize, huffcode, p, si, code);
      CodedSize(b, n, huffsize[..], huffcode[..], p);
      if code >= Pow2(si) {
        return false, huffcode;
      }
      code, si := code * 2, si + 1;
    }
    CodedSize(b, n, huffsize[..], huffcode[..], p);
    RoomyAfter(b, si);
    ok := true;
  }

  // ---------------------------------------------------------------- encoder

  /** A c_derived_tbl: code and size by symbol; size 0 for a symbol without code. */
  datatype CTable = CTable(ehufco: seq<nat>, ehufsi: seq<nat>)

  ghost predicate CodesFirst(t: Table, c: CTable, n: nat)
    requires WellFormed(t) && n <= Upto(t.bits, 16) <= 256
  {
    && |c.ehufco| == |c.ehufsi| == 256
    && (forall p :: 0 <= p < n ==>
          && t.vals[p] < 256 && c.ehufsi[t.vals[p]] == LenOf(t.bits, p, 16)
          && c.ehufco[t.vals[p]] == CodeOf(t.bits, p))
    && forall y :: 0 <= y < 256 && y !in t.vals[..n] ==> c.ehufsi[y] == 0
  }

  ghost predicate EncodesTable(t: Table, c: CTable)
    requires WellFormed(t) && Upto(t.bits, 16) <= 256
  {
    CodesFirst(t, c, Upto(t.bits, 16))
  }

  /** The first `n` symbols are distinct and at most `max`. */
  ghost predicate SymbolsFine(vals: seq<nat>, n: nat, max: nat)
    requires n <= |vals|
  {
    && (forall p :: 0 <= p < n ==> vals[p] <= max)
    && forall p, q :: 0 <= p < q < n ==> vals[p] != vals[q]
  }

  lemma CodesNext(t: Table, c: CTable, n: nat, max: nat)
    requires WellFormed(t) && n < Upto(t.bits, 16) <= 256 && max < 256
    requires CodesFirst(t, c, n) && SymbolsFine(t.vals, n, max)
    ensures t.vals[n] <= max && c.ehufsi[t.vals[n]] == 0 <==> SymbolsFine(t.vals, n + 1, max)
    ensures SymbolsFine(t.vals, n + 1, max) ==>
              CodesFirst(t, CTable(c.ehufco[t.vals[n] := CodeOf(t.bits, n)],
                                   c.ehufsi[t.vals[n] := LenOf(t.bits, n, 16)]), n + 1)
  {
    hide Upto, Next, LenOf, CodeOf;
    assert t.vals[..n + 1] == t.vals[..n] + [t.vals[n]];
    if t.vals[n] <= max && c.ehufsi[t.vals[n]] == 0 {
      forall p | 0 <= p < n
        ensures t.vals[p] != t.vals[n]
      {
        assert c.ehufsi[t.vals[p]] == LenOf(t.bits, p, 16);
      }
    }
  }

  lemma {:induction false} NotFine(vals: seq<nat>, n: nat, m: nat, max: nat)
    requires n <= m <= |vals| && !SymbolsFine(vals, n, max)
    ensures !SymbolsFine(vals, m, max)
  {
  }

  /** jpeg_make_c_derived_tbl: refused exactly when the table is not legal. */
  method MakeCDerived(t: Table, isDC: bool) returns (ok: bool, c: CTable)
    requires WellFormed(t)
    ensures ok <==> Legal(t, if isDC then 15 else 255)
    ensures ok ==> EncodesTable(t, c)
  {
    hide Roomy, Upto, Next, LenOf, CodeOf;
    c := CTable([], []);
    var huffsize, lastp, huffcode;
    ok, huffsize, lastp := GenerateSizes(t.bits);
    if !ok {
      return;
    }
    ok, huffcode := GenerateCodes(t.bits, huffsize, lastp);
    if !ok {
      return;
    }
    ok, c := CodesBySymbol(t, isDC, lastp, huffsize[..], huffcode[..]);
  }

  /** Figure C.3: codes by symbol; no symbol may come twice. */
  method CodesBySymbol(t: Table, isDC: bool, lastp: nat, huffsize: seq<nat>, huffcode: seq<nat>)
    returns (ok: bool, c: CTable)
    requires WellFormed(t) && Upto(t.bits, 16) <= 256
    requires CodedUpto(t.bits, lastp, huffsize, huffcode, lastp)
    ensures ok <==> SymbolsFine(t.vals, lastp, if isDC then 15 else 255)
    ensures ok ==> EncodesTable(t, c)
  {
    hide Upto, Next, LenOf, CodeOf;
    c := CTable(seq(256, i => 0), seq(256, i => 0));
    var maxsymbol := if isDC then 15 else 255;
    for p := 0 to lastp
      invariant CodesFirst(t, c, p) && SymbolsFine(t.vals, p, maxsymbol)
    {
      var i := t.vals[p];
      CodesNext(t, c, p, maxsymbol);
      if i > maxsymbol || c.ehufsi[i] != 0 {
        NotFine(t.vals, p + 1, lastp, maxsymbol);
        return false, c;
      }
      c := CTable(c.ehufco[i := huffcode[p]], c.ehufsi[i := huffsize[p]]);
    }
    ok := true;
  }

  // ---------------------------------------------------------------- decoder

  const HUFF_LOOKAHEAD: nat := 8

  /** A d_derived_tbl; `lookNbits` is 0 where the next code is too long. */
  datatype DTable = DTable(maxcode: seq<int>, valoffset: seq<int>,
                           lookNbits: seq<nat>, lookSym: seq<nat>)

  /** Figure F.15: largest code and symbol offset for each length. */
  ghost predicate LimitsUpto(t: Table, maxcode: seq<int>, valoffset: seq<int>, n: nat)
    requires WellFormed(t)
  {
    && |maxcode| == 18 && |valoffset| == 17 && n <= 16
    && forall l :: 0 < l <= n ==>
         && maxcode[l] == (if t.bits[l] != 0 then Next(t.bits, l) - 1 else -1)
         && (t.bits[l] != 0 ==> valoffset[l] == Upto(t.bits, l - 1) - 2 * Next(t.bits, l - 1))
  }

  /** Does the eight-bit `v` begin with a code, and of what length? */
  function LookLen(t: Table, v: nat): nat
    requires WellFormed(t)
  {
    ScanLen(t.bits, Word(v, 8), 0, 1)
  }

  ghost predicate LookEntry(t: Table, nbits: seq<nat>, syms: seq<nat>, v: nat)
    requires WellFormed(t) && Upto(t.bits, 16) <= 256 && |nbits| == |syms| == 256 && v < 256
  {
    var l := LookLen(t, v);
    if l > 8 then nbits[v] == 0
    else nbits[v] == l && syms[v] == t.vals[SymbolIndex(t.bits, Word(v, 8), 0, l)]
  }

  /** The lookahead table is filled for the values below `top` and empty above. */
  ghost predicate LookUpto(t: Table, nbits: seq<nat>, syms: seq<nat>, top: nat)
    requires WellFormed(t) && Upto(t.bits, 16) <= 256
  {
    && |nbits| == |syms| == 256 && top <= 256
    && (forall v :: 0 <= v < top ==> LookEntry(t, nbits, syms, v))
    && forall v :: top <= v < 256 ==> nbits[v] == 0
  }

  ghost predicate DecodesTable(t: Table, d: DTable)
    requires WellFormed(t) && Upto(t.bits, 16) <= 256
  {
    && LimitsUpto(t, d.maxcode, d.valoffset, 16) && d.maxcode[17] == 0xFFFFF
    && |d.lookNbits| == |d.lookSym| == 256
    && forall v :: 0 <= v < 256 ==> LookEntry(t, d.lookNbits, d.lookSym, v)
  }

  /** Two streams with the same next eight bits. */
  lemma SameWindow(s: seq<bit>, pos: nat, r: seq<bit>, q: nat, m: nat, k: nat)
    requires k <= m && Window(s, pos, m) == Window(r, q, m)
    ensures Window(s, pos, k) == Window(r, q, k)
  {
    hide Window;
    WindowSplit(s, pos, k, m - k);
    WindowSplit(r, q, k, m - k);
    QuotientIs(Window(s, pos, m), Pow2(m - k), Window(s, pos, k), Window(s, pos + k, m - k));
    QuotientIs(Window(r, q, m), Pow2(m - k), Window(r, q, k), Window(r, q + k, m - k));
  }

  lemma WordWindow(v: nat)
    requires v < 256
    ensures Window(Word(v, 8), 0, 8) == v
  {
    hide Window, Word, BitVal;
    Pow2Small();
    HoldsWindow(Word(v, 8), 0, Word(v, 8), 8);
    assert Word(v, 8)[..8] == Word(v, 8);
    WordVal(v, 8);
  }

  /** A code of length `l` followed by zeros, in eight bits. */
  function Justified(code: nat, l: nat): nat
    requires l <= 8
  {
    code * Pow2(8 - l)
  }

  lemma JustifiedNext(code: nat, l: nat)
    requires l <= 8
    ensures Justified(code + 1, l) == Justified(code, l) + Pow2(8 - l)
    ensures code < Pow2(l) ==> Justified(code + 1, l) <= 256
    ensures l == 0 || Justified(2 * code, l) == Justified(code, l - 1)
    ensures l == 8 ==> Justified(code, l) == code
  {
    var p := Pow2(8 - l);
    if code < Pow2(l) {
      Pow2Small();
      Pow2Add(l, 8 - l);
      MulLe(code + 1, Pow2(l), p);
    }
    if l != 0 {
      assert Pow2(8 - (l - 1)) == 2 * p;
      MulShuffle(2, code, p);
    }
    assert (code + 1) * p == code * p + p;
  }

  /** The values that begin with code number `p`. */
  lemma LookOfCode(t: Table, p: nat, v: nat)
    requires WellFormed(t) && Numbered(t.bits, p) && Upto(t.bits, 16) <= 256 && LenOf(t.bits, p, 16) <= 8
    requires var l, c := LenOf(t.bits, p, 16), CodeOf(t.bits, p);
      Justified(c, l) <= v < Justified(c + 1, l) && v < 256
    ensures LookLen(t, v) == LenOf(t.bits, p, 16)
    ensures SymbolIndex(t.bits, Word(v, 8), 0, LookLen(t, v)) == p
  {
    hide Window, Word, Next, Upto, BitVal;
    var b, w, l, c := t.bits, Word(v, 8), LenOf(t.bits, p, 16), CodeOf(t.bits, p);
    WordWindow(v);
    WindowSplit(w, 0, l, 8 - l);
    QuotientIs(v, Pow2(8 - l), Window(w, 0, l), Window(w, l, 8 - l));
    JustifiedNext(c, l);
    QuotientIs(v, Pow2(8 - l), c, v - Justified(c, l));
    var r := ScanLen(b, w, 0, 1);
    if r < l {
      BelowStays(b, w, 0, r, l);
    }
  }

  /** Values at or above the running code of eight bits begin a longer code. */
  lemma LookTooLong(t: Table, v: nat)
    requires WellFormed(t) && Next(t.bits, 8) <= v < 256
    ensures LookLen(t, v) > 8
  {
    hide Window, Word, Next;
    WordWindow(v);
    var r := LookLen(t, v);
    if r < 8 {
      BelowStays(t.bits, Word(v, 8), 0, r, 8);
      UptoStep(t.bits, 8);
    }
  }

  lemma LookDone(t: Table, nbits: seq<nat>, syms: seq<nat>)
    requires WellFormed(t) && Upto(t.bits, 16) <= 256 && LookUpto(t, nbits, syms, Next(t.bits, 8))
    ensures forall v :: 0 <= v < 256 ==> LookEntry(t, nbits, syms, v)
  {
    hide LookLen;
    forall v | Next(t.bits, 8) <= v < 256
      ensures LookEntry(t, nbits, syms, v)
    {
      LookTooLong(t, v);
    }
  }

  lemma LookNext(t: Table, nbits: seq<nat>, syms: seq<nat>, top: nat, p: nat)
    requires WellFormed(t) && Numbered(t.bits, p) && Upto(t.bits, 16) <= 256 && LenOf(t.bits, p, 16) <= 8
    requires var l, c := LenOf(t.bits, p, 16), CodeOf(t.bits, p);
      Justified(c, l) <= top < Justified(c + 1, l) && top < 256
    requires LookUpto(t, nbits, syms, top)
    ensures LookUpto(t, nbits[top := LenOf(t.bits, p, 16)], syms[top := t.vals[p]], top + 1)
  {
    hide LookLen, SymbolIndex, Upto, Next, LenOf, CodeOf, Justified;
    LookOfCode(t, p, top);
    var nbits2, syms2 := nbits[top := LenOf(t.bits, p, 16)], syms[top := t.vals[p]];
    forall v | 0 <= v < top + 1
      ensures LookEntry(t, nbits2, syms2, v)
    {
      if v < top {
        assert LookEntry(t, nbits, syms, v);
      }
    }
  }

  lemma CodePlace(b: seq<nat>, p: nat, l: nat)
    requires Numbered(b, p) && Roomy(b) && LenOf(b, p, 16) == l <= 8
    ensures Justified(CodeOf(b, p) + 1, l) == Justified(CodeOf(b, p), l) + Pow2(8 - l) <= 256
  {
    hide Pow2, Justified;
    JustifiedNext(CodeOf(b, p), l);
  }

  /** All table entries for one code. */
  method FillEntries(t: Table, p: nat, l: nat, code: nat, lookNbits: array<nat>, lookSym: array<nat>)
    requires WellFormed(t) && Numbered(t.bits, p) && Roomy(t.bits) && Upto(t.bits, 16) <= 256
    requires LenOf(t.bits, p, 16) == l <= 8 && code == CodeOf(t.bits, p) && lookNbits != lookSym
    requires LookUpto(t, lookNbits[..], lookSym[..], Justified(code, l))
    modifies lookNbits, lookSym
    ensures LookUpto(t, lookNbits[..], lookSym[..], Justified(code + 1, l))
  {
    CodePlace(t.bits, p, l);
    LookLengths(t, lookNbits[..], lookSym[..], Justified(code, l));
    hide LookUpto, Roomy, Upto, Next, LenOf, CodeOf, Pow2, Justified;
    var lookbits, ctr := Justified(code, l), Pow2(8 - l);
    while ctr > 0
      invariant lookNbits.Length == lookSym.Length == 256
      invariant lookbits + ctr == Justified(code + 1, l) && Justified(code, l) <= lookbits && 0 <= ctr
      invariant LookUpto(t, lookNbits[..], lookSym[..], lookbits)
    {
      LookNext(t, lookNbits[..], lookSym[..], lookbits, p);
      ghost var nbits, syms := lookNbits[..], lookSym[..];
      lookNbits[lookbits] := l;
      lookSym[lookbits] := t.vals[p];
      assert lookNbits[..] == nbits[lookbits := l] && lookSym[..] == syms[lookbits := t.vals[p]];
      lookbits, ctr := lookbits + 1, ctr - 1;
    }
  }

  lemma LookLengths(t: Table, nbits: seq<nat>, syms: seq<nat>, top: nat)
    requires WellFormed(t) && Upto(t.bits, 16) <= 256 && LookUpto(t, nbits, syms, top)
    ensures |nbits| == |syms| == 256
  {
  }

  /** Figure F.15. */
  method MakeLimits(t: Table, huffcode: seq<nat>) returns (maxcode: seq<int>, valoffset: seq<int>)
    requires WellFormed(t) && Upto(t.bits, 16) <= 256 && |huffcode| == 257
    requires forall p :: 0 <= p < Upto(t.bits, 16) ==> huffcode[p] == CodeOf(t.bits, p)
    ensures LimitsUpto(t, maxcode, valoffset, 16) && maxcode[17] == 0xFFFFF
  {
    hide Upto, Next, CodeOf;
    maxcode, valoffset := seq(18, i => 0), seq(17, i => 0);
    var p := 0;
    UptoStep(t.bits, 0);
    for l := 1 to 17
      invariant LimitsUpto(t, maxcode, valoffset, l - 1) && p == Upto(t.bits, l - 1)
    {
      UptoStep(t.bits, l);
      NextGrows(t.bits, l, 16);
      if t.bits[l] != 0 {
        FirstAndLast(t.bits, l);
        valoffset := valoffset[l := p - huffcode[p]];
        p := p + t.bits[l];
        maxcode := maxcode[l := huffcode[p - 1]];
      } else {
        maxcode := maxcode[l := -1];
      }
    }
    maxcode := maxcode[17 := 0xFFFFF];
  }

  lemma FirstAndLast(b: seq<nat>, l: nat)
    requires |b| == 17 && 0 < l <= 16 && b[l] != 0
    ensures Numbered(b, Upto(b, l - 1)) && CodeOf(b, Upto(b, l - 1)) == 2 * Next(b, l - 1)
    ensures Upto(b, l) > 0 && Numbered(b, Upto(b, l) - 1) && CodeOf(b, Upto(b, l) - 1) == Next(b, l) - 1
  {
    NextGrows(b, l, 16);
    LenIs(b, Upto(b, l - 1), l, 16);
    LenIs(b, Upto(b, l) - 1, l, 16);
  }

  /** The lookahead tables. */
  method MakeLookahead(t: Table, huffcode: seq<nat>) returns (lookNbits: array<nat>, lookSym: array<nat>)
    requires WellFormed(t) && Upto(t.bits, 16) <= 256 && Roomy(t.bits) && |huffcode| == 257
    requires forall p :: 0 <= p < Upto(t.bits, 16) ==> huffcode[p] == CodeOf(t.bits, p)
    ensures fresh(lookNbits) && fresh(lookSym) && lookNbits.Length == lookSym.Length == 256
    ensures forall v :: 0 <= v < 256 ==> LookEntry(t, lookNbits[..], lookSym[..], v)
  {
    lookNbits, lookSym := new nat[256](i => 0), new nat[256](i => 0);
    assert LookUpto(t, lookNbits[..], lookSym[..], 0) && Justified(0, 0) == 0;
    hide Upto, Next, CodeOf, LenOf, Roomy, LookUpto, Justified, LookLen;
    var p := 0;
    UptoStep(t.bits, 0);
    for l := 1 to HUFF_LOOKAHEAD + 1
      invariant p == Upto(t.bits, l - 1)
      invariant LookUpto(t, lookNbits[..], lookSym[..], Justified(Next(t.bits, l - 1), l - 1))
    {
      p := LookaheadOfLength(t, huffcode, l, p, lookNbits, lookSym);
    }
    JustifiedNext(Next(t.bits, 8), 8);
    LookDone(t, lookNbits[..], lookSym[..]);
    LookLengths(t, lookNbits[..], lookSym[..], Next(t.bits, 8));
  }

  /** Entries for all codes of length `l`. */
  method LookaheadOfLength(t: Table, huffcode: seq<nat>, l: nat, p0: nat, lookNbits: array<nat>,
                           lookSym: array<nat>) returns (p: nat)
    requires WellFormed(t) && Upto(t.bits, 16) <= 256 && Roomy(t.bits) && |huffcode| == 257
    requires forall p :: 0 <= p < Upto(t.bits, 16) ==> huffcode[p] == CodeOf(t.bits, p)
    requires 0 < l <= 8 && p0 == Upto(t.bits, l - 1) && lookNbits != lookSym
    requires LookUpto(t, lookNbits[..], lookSym[..], Justified(Next(t.bits, l - 1), l - 1))
    modifies lookNbits, lookSym
    ensures p == Upto(t.bits, l)
    ensures LookUpto(t, lookNbits[..], lookSym[..], Justified(Next(t.bits, l), l))
  {
    hide Upto, Next, CodeOf, LenOf, Roomy, LookUpto, Justified, LookLen;
    UptoStep(t.bits, l);
    NextGrows(t.bits, l, 16);
    JustifiedNext(Next(t.bits, l - 1), l);
    p := p0;
    for i := 1 to t.bits[l] + 1
      invariant p == Upto(t.bits, l - 1) + (i - 1)
      invariant LookUpto(t, lookNbits[..], lookSym[..], Justified(2 * Next(t.bits, l - 1) + (i - 1), l))
    {
      LenIs(t.bits, p, l, 16);
      CodeIs(t.bits, p, l);
      FillEntries(t, p, l, huffcode[p], lookNbits, lookSym);
      p := p + 1;
    }
  }

  /** jpeg_make_d_derived_tbl: it accepts every table that the encoder side does. */
  method MakeDDerived(t: Table, isDC: bool) returns (ok: bool, d: DTable)
    requires WellFormed(t)
    ensures ok <==> && Upto(t.bits, 16) <= 256 && Roomy(t.bits)
                    && (isDC ==> forall p :: 0 <= p < Upto(t.bits, 16) ==> t.vals[p] <= 15)
    ensures ok ==> DecodesTable(t, d)
    ensures Legal(t, if isDC then 15 else 255) ==> ok
  {
    hide Roomy, Upto, Next, LenOf, CodeOf, LookLen;
    d := DTable([], [], [], []);
    var huffsize, numsymbols, huffcode;
    ok, huffsize, numsymbols := GenerateSizes(t.bits);
    if !ok {
      return;
    }
    ok, huffcode := GenerateCodes(t.bits, huffsize, numsymbols);
    if !ok {
      return;
    }
    var codes := huffcode[..];
    var maxcode, valoffset := MakeLimits(t, codes);
    var lookNbits, lookSym := MakeLookahead(t, codes);
    d := DTable(maxcode, valoffset, lookNbits[..], lookSym[..]);
    if isDC {
      for i := 0 to numsymbols
        invariant forall p :: 0 <= p < i ==> t.vals[p] <= 15
      {
        if t.vals[i] > 15 {
          return false, d;
        }
      }
    }
    ok := true;
  }
}
