/** jpeg_simple_progression (jcparam.c): the recommended progressive scripts. */
module SimpleProgression {
  import opened ScanScript

  /** A scan of component `c` alone. */
  function One(c: int, ss: int, se: int, ah: int, al: int): ScanInfo
  {
    ScanInfo([c], ss, se, ah, al)
  }

  function Each(n: nat, ss: int, se: int, ah: int, al: int): (r: seq<ScanInfo>)
    ensures |r| == n
  {
    seq(n, c => One(c, ss, se, ah, al))
  }

  function Dc(n: nat, ah: int, al: int): (r: seq<ScanInfo>)
    ensures |r| == if n <= 4 then 1 else n
  {
    if n <= 4 then [ScanInfo(seq(n, i => i), 0, 0, ah, al)] else Each(n, 0, 0, ah, al)
  }

  /** The script; `ycc` says whether the color space has two chroma components. */
  function Script(n: nat, ycc: bool): (r: seq<ScanInfo>)
    ensures |r| == Count(n, ycc)
  {
    if n == 3 && ycc then
      Dc(n, 0, 1) + [One(0, 1, 5, 0, 2)] + [One(2, 1, 63, 0, 1)] + [One(1, 1, 63, 0, 1)]
      + [One(0, 6, 63, 0, 2)] + [One(0, 1, 63, 2, 1)] + Dc(n, 1, 0)
      + [One(2, 1, 63, 1, 0)] + [One(1, 1, 63, 1, 0)] + [One(0, 1, 63, 1, 0)]
    else
      Dc(n, 0, 1) + Each(n, 1, 5, 0, 2) + Each(n, 6, 63, 0, 2) + Each(n, 1, 63, 2, 1)
      + Dc(n, 1, 0) + Each(n, 1, 63, 1, 0)
  }

  /** Scans of the script; the space is figured from this. */
  function Count(n: nat, ycc: bool): nat
  {
    if n == 3 && ycc then 10
    else if n > 4 then 6 * n
    else 2 + 4 * n
  }

  // ----------------------------------------------------------------- filling it in

  method FillAScan(a: array<ScanInfo>, at: nat, ci: int, ss: int, se: int, ah: int, al: int) returns (next: nat)
    requires at < a.Length
    modifies a
    ensures next == at + 1 && a[..next] == old(a[..at]) + [One(ci, ss, se, ah, al)]
  {
    a[at] := ScanInfo([ci], ss, se, ah, al);
    return at + 1;
  }

  method FillScans(a: array<ScanInfo>, at: nat, n: nat, ss: int, se: int, ah: int, al: int) returns (next: nat)
    requires at + n <= a.Length
    modifies a
    ensures next == at + n && a[..next] == old(a[..at]) + Each(n, ss, se, ah, al)
  {
    next := at;
    for ci := 0 to n
      invariant next == at + ci && a[..next] == old(a[..at]) + Each(n, ss, se, ah, al)[..ci]
    {
      a[next] := ScanInfo([ci], ss, se, ah, al);
      next := next + 1;
    }
  }

  method FillDcScans(a: array<ScanInfo>, at: nat, n: nat, ah: int, al: int) returns (next: nat)
    requires at + |Dc(n, ah, al)| <= a.Length
    modifies a
    ensures next == at + |Dc(n, ah, al)| && a[..next] == old(a[..at]) + Dc(n, ah, al)
  {
    if n <= MAX_COMPS_IN_SCAN {
      var comps := [];
      for ci := 0 to n
        invariant comps == seq(ci, i => i)
      {
        comps := comps + [ci];
      }
      a[at] := ScanInfo(comps, 0, 0, ah, al);
      next := at + 1;
    } else {
      next := FillScans(a, at, n, 0, 0, ah, al);
    }
  }

  /** jpeg_simple_progression fills exactly the scans it made room for. */
  method SimpleProgression(n: nat, ycc: bool) returns (a: array<ScanInfo>)
    ensures fresh(a) && a.Length == Count(n, ycc) && a[..] == Script(n, ycc)
  {
    a := new ScanInfo[Count(n, ycc)](i => ScanInfo([], 0, 0, 0, 0));
    if n == 3 && ycc {
      FillColor(a, n);
    } else {
      FillPlain(a, n, ycc);
    }
  }

  /** The all-purpose script. */
  method FillPlain(a: array<ScanInfo>, n: nat, ycc: bool)
    requires !(n == 3 && ycc) && a.Length == Count(n, ycc)
    modifies a
    ensures a[..] == Script(n, ycc)
  {
    hide Each, Dc;
    var at := FillDcScans(a, 0, n, 0, 1);
    at := FillScans(a, at, n, 1, 5, 0, 2);
    at := FillScans(a, at, n, 6, 63, 0, 2);
    at := FillScans(a, at, n, 1, 63, 2, 1);
    at := FillDcScans(a, at, n, 1, 0);
    at := FillScans(a, at, n, 1, 63, 1, 0);
    assert a[..at] == a[..];
  }

  /** The custom script for YCC color images. */
  method FillColor(a: array<ScanInfo>, n: nat)
    requires n == 3 && a.Length == 10
    modifies a
    ensures a[..] == Script(n, true)
  {
    hide One, Dc, Script;
    var at := FillColorFirst(a, n);
    at := FillColorLast(a, at, n);
    assert a[..at] == a[..];
    ColorScript(n, Dc(n, 0, 1), Dc(n, 1, 0));
  }

  /** Initial scans, and the first refinement of luma. */
  method FillColorFirst(a: array<ScanInfo>, n: nat) returns (at: nat)
    requires n == 3 && a.Length == 10
    modifies a
    ensures at == 6
    ensures a[..at] == Dc(n, 0, 1) + [One(0, 1, 5, 0, 2)] + [One(2, 1, 63, 0, 1)] + [One(1, 1, 63, 0, 1)]
                       + [One(0, 6, 63, 0, 2)] + [One(0, 1, 63, 2, 1)]
  {
    hide One, Dc;
    at := FillDcScans(a, 0, n, 0, 1);
    at := FillAScan(a, at, 0, 1, 5, 0, 2);
    at := FillAScan(a, at, 2, 1, 63, 0, 1);
    at := FillAScan(a, at, 1, 1, 63, 0, 1);
    at := FillAScan(a, at, 0, 6, 63, 0, 2);
    at := FillAScan(a, at, 0, 1, 63, 2, 1);
  }

  /** The final scans. */
  method FillColorLast(a: array<ScanInfo>, start: nat, n: nat) returns (at: nat)
    requires n == 3 && start == 6 && a.Length == 10
    modifies a
    ensures at == 10
    ensures a[..at] == old(a[..start]) + Dc(n, 1, 0) + [One(2, 1, 63, 1, 0)] + [One(1, 1, 63, 1, 0)]
                       + [One(0, 1, 63, 1, 0)]
  {
    hide One, Dc;
    at := FillDcScans(a, start, n, 1, 0);
    at := FillAScan(a, at, 2, 1, 63, 1, 0);
    at := FillAScan(a, at, 1, 1, 63, 1, 0);
    at := FillAScan(a, at, 0, 1, 63, 1, 0);
  }

  lemma ColorScript(n: nat, first: seq<ScanInfo>, last: seq<ScanInfo>)
    requires n == 3 && first == Dc(n, 0, 1) && last == Dc(n, 1, 0)
    ensures Script(n, true) == first + [One(0, 1, 5, 0, 2)] + [One(2, 1, 63, 0, 1)] + [One(1, 1, 63, 0, 1)]
                               + [One(0, 6, 63, 0, 2)] + [One(0, 1, 63, 2, 1)] + last
                               + [One(2, 1, 63, 1, 0)] + [One(1, 1, 63, 1, 0)] + [One(0, 1, 63, 1, 0)]
  {
    hide One, Dc;
  }

  // ---------------------------------------------------------------------- legality

  /** Stages of component `c` after `p`: its DC coefficient, coefficients 1 to 5, 6 to 63. */
  ghost predicate At(p: seq<ScanInfo>, c: int, d: int, lo: int, hi: int)
  {
    && LastAl(p, c, 0) == d
    && (forall j :: 1 <= j <= 5 ==> LastAl(p, c, j) == lo)
    && forall j :: 6 <= j <= 63 ==> LastAl(p, c, j) == hi
  }

  lemma AtNext(p: seq<ScanInfo>, s: ScanInfo, c: int, d: int, lo: int, hi: int)
    requires At(p, c, d, lo, hi)
    requires (s.ss == s.se == 0) || (s.ss == 1 && s.se == 5) || (s.ss == 6 && s.se == 63) || (s.ss == 1 && s.se == 63)
    ensures if c !in s.comps then At(p + [s], c, d, lo, hi)
            else if s.ss == 0 then At(p + [s], c, s.al, lo, hi)
            else if s.ss == 6 then At(p + [s], c, d, lo, s.al)
            else if s.se == 5 then At(p + [s], c, d, s.al, hi)
            else At(p + [s], c, d, s.al, s.al)
  {
    forall j | 0 <= j <= 63
      ensures LastAl(p + [s], c, j) == if Covers(s, c, j) then s.al else LastAl(p, c, j)
    {
      LastIs(p, s, c, j);
    }
  }

  /** `from` is what the coefficients of the scan are at. */
  lemma OrderAt(p: seq<ScanInfo>, s: ScanInfo, c: int, d: int, lo: int, hi: int)
    requires At(p, c, d, lo, hi) && (s.ss != 0 ==> 0 <= d)
    requires (s.ss == s.se == 0) || (s.ss == 1 && s.se == 5) || (s.ss == 6 && s.se == 63)
             || (s.ss == 1 && s.se == 63 && lo == hi)
    requires var from := if s.ss == 0 then d else if s.ss == 6 then hi else lo;
             if from < 0 then s.ah == 0 else s.ah == from && s.al == from - 1
    ensures CompOrder(p, s, c)
  {
  }

  ghost predicate AllAt(p: seq<ScanInfo>, n: nat, d: int, lo: int, hi: int)
  {
    forall c :: 0 <= c < n ==> At(p, c, d, lo, hi)
  }

  /** Where a scan of a component takes it. */
  ghost predicate Moves(s: ScanInfo, d: int, lo: int, hi: int, d1: int, lo1: int, hi1: int)
  {
    && (s.ss != 0 ==> 0 <= d)
    && ((s.ss == s.se == 0) || (s.ss == 1 && s.se == 5) || (s.ss == 6 && s.se == 63)
        || (s.ss == 1 && s.se == 63 && lo == hi))
    && (var from := if s.ss == 0 then d else if s.ss == 6 then hi else lo;
        if from < 0 then s.ah == 0 else s.ah == from && s.al == from - 1)
    && d1 == (if s.ss == 0 then s.al else d) && lo1 == (if s.ss == 1 then s.al else lo)
    && hi1 == if s.se == 63 then s.al else hi
  }

  /** One scan for each component takes them all to the next stage. */
  lemma {:induction false} EachLegal(p: seq<ScanInfo>, n: nat, k: nat, s: ScanInfo, d: int, lo: int, hi: int,
                                     d1: int, lo1: int, hi1: int)
    requires ScansOk(p, n) && AllAt(p, n, d, lo, hi) && k <= n && |s.comps| == 1 && ParamsOk(s)
    requires Moves(s, d, lo, hi, d1, lo1, hi1)
    ensures var q := p + Each(n, s.ss, s.se, s.ah, s.al)[..k];
            && ScansOk(q, n)
            && (forall c :: k <= c < n ==> At(q, c, d, lo, hi))
            && forall c :: 0 <= c < k ==> At(q, c, d1, lo1, hi1)
    decreases k
  {
    hide At, ScansOk, CompOrder, AllAt;
    var all := Each(n, s.ss, s.se, s.ah, s.al);
    if k == 0 {
      assert p + all[..0] == p;
      AllAtMeans(p, n, d, lo, hi);
    } else {
      EachLegal(p, n, k - 1, s, d, lo, hi, d1, lo1, hi1);
      var q, t := p + all[..k - 1], all[k - 1];
      assert p + all[..k] == q + [t];
      OrderAt(q, t, k - 1, d, lo, hi);
      AppendOk(q, t, n);
      forall c | 0 <= c < n
        ensures c >= k ==> At(q + [t], c, d, lo, hi)
        ensures c < k ==> At(q + [t], c, d1, lo1, hi1)
      {
        if c < k - 1 {
          AtNext(q, t, c, d1, lo1, hi1);
        } else {
          AtNext(q, t, c, d, lo, hi);
        }
      }
    }
  }

  lemma AllAtMeans(p: seq<ScanInfo>, n: nat, d: int, lo: int, hi: int)
    ensures AllAt(p, n, d, lo, hi) <==> forall c :: 0 <= c < n ==> At(p, c, d, lo, hi)
  {
  }

  lemma EachDone(p: seq<ScanInfo>, n: nat, ss: int, se: int, ah: int, al: int, d: int, lo: int, hi: int)
    requires ScansOk(p, n) && AllAt(p, n, d, lo, hi) && 0 <= ah <= 10 && 0 <= al <= 10
    requires ss != 0 ==> 0 <= d
    requires (ss == se == 0) || (ss == 1 && se == 5) || (ss == 6 && se == 63) || (ss == 1 && se == 63 && lo == hi)
    requires var from := if ss == 0 then d else if ss == 6 then hi else lo;
             if from < 0 then ah == 0 else ah == from && al == from - 1
    ensures var q := p + Each(n, ss, se, ah, al);
            ScansOk(q, n)
            && AllAt(q, n, if ss == 0 then al else d, if ss == 1 then al else lo, if se == 63 then al else hi)
  {
    hide At, ScansOk;
    var all := Each(n, ss, se, ah, al);
    EachLegal(p, n, n, One(0, ss, se, ah, al), d, lo, hi, if ss == 0 then al else d, if ss == 1 then al else lo,
              if se == 63 then al else hi);
    assert all[..n] == all;
  }

  lemma DcDone(p: seq<ScanInfo>, n: nat, ah: int, al: int, d: int, lo: int, hi: int)
    requires 1 <= n && ScansOk(p, n) && AllAt(p, n, d, lo, hi) && 0 <= ah <= 10 && 0 <= al <= 10
    requires if d < 0 then ah == 0 else ah == d && al == d - 1
    ensures ScansOk(p + Dc(n, ah, al), n) && AllAt(p + Dc(n, ah, al), n, al, lo, hi)
  {
    hide At, ScansOk, CompOrder;
    if n <= MAX_COMPS_IN_SCAN {
      var s := Dc(n, ah, al)[0];
      forall c | 0 <= c < n
        ensures CompOrder(p, s, c) && At(p + [s], c, al, lo, hi)
      {
        OrderAt(p, s, c, d, lo, hi);
        assert s.comps[c] == c;
        AtNext(p, s, c, d, lo, hi);
      }
      AppendOk(p, s, n);
    } else {
      EachDone(p, n, 0, 0, ah, al, d, lo, hi);
    }
  }

  /** Before any scan. */
  lemma NothingYet(n: nat)
    ensures ScansOk([], n) && AllAt([], n, -1, -1, -1)
  {
  }

  /** The last stage is 0 for every coefficient of every component. */
  ghost predicate Finished(scans: seq<ScanInfo>, n: nat)
  {
    forall c, j :: 0 <= c < n && 0 <= j < DCTSIZE2 ==> LastAl(scans, c, j) == 0
  }

  lemma AllFinished(scans: seq<ScanInfo>, n: nat)
    requires AllAt(scans, n, 0, 0, 0)
    ensures Finished(scans, n)
  {
    forall c, j | 0 <= c < n && 0 <= j < DCTSIZE2
      ensures LastAl(scans, c, j) == 0
    {
      assert At(scans, c, 0, 0, 0);
    }
  }

  lemma PlainLegal(n: nat)
    requires 1 <= n
    ensures var p := Dc(n, 0, 1) + Each(n, 1, 5, 0, 2) + Each(n, 6, 63, 0, 2) + Each(n, 1, 63, 2, 1)
                     + Dc(n, 1, 0) + Each(n, 1, 63, 1, 0);
            ScansOk(p, n) && AllAt(p, n, 0, 0, 0)
  {
    hide ScansOk, AllAt, Dc, Each;
    NothingYet(n);
    DcDone([], n, 0, 1, -1, -1, -1);
    assert [] + Dc(n, 0, 1) == Dc(n, 0, 1);
    var p := Dc(n, 0, 1);
    EachDone(p, n, 1, 5, 0, 2, 1, -1, -1);
    p := p + Each(n, 1, 5, 0, 2);
    EachDone(p, n, 6, 63, 0, 2, 1, 2, -1);
    p := p + Each(n, 6, 63, 0, 2);
    EachDone(p, n, 1, 63, 2, 1, 1, 2, 2);
    p := p + Each(n, 1, 63, 2, 1);
    DcDone(p, n, 1, 0, 1, 1, 1);
    p := p + Dc(n, 1, 0);
    EachDone(p, n, 1, 63, 1, 0, 0, 1, 1);
  }

  /** Stages of the three components of a color image. */
  ghost predicate Color(p: seq<ScanInfo>, d: int, y: (int, int), cb: int, cr: int)
  {
    ScansOk(p, 3) && At(p, 0, d, y.0, y.1) && At(p, 1, d, cb, cb) && At(p, 2, d, cr, cr)
  }

  /** A scan of one component moves that one. */
  lemma ColorNext(p: seq<ScanInfo>, c: int, ss: int, se: int, ah: int, al: int, d: int, y: (int, int), cb: int, cr: int)
    requires Color(p, d, y, cb, cr) && 0 <= c < 3 && 0 <= d && 0 <= ah <= 10 && 0 <= al <= 10
    requires (ss == 1 && se == 5 && c == 0) || (ss == 6 && se == 63 && c == 0)
             || (ss == 1 && se == 63 && (c != 0 || y.0 == y.1))
    requires var from := if c == 1 then cb else if c == 2 then cr else if ss == 6 then y.1 else y.0;
             if from < 0 then ah == 0 else ah == from && al == from - 1
    ensures Color(p + [One(c, ss, se, ah, al)], d,
                  if c == 0 then (if ss == 1 then al else y.0, if se == 63 then al else y.1) else y,
                  if c == 1 then al else cb, if c == 2 then al else cr)
  {
    hide At, ScansOk, CompOrder;
    var s := One(c, ss, se, ah, al);
    if c == 0 {
      OrderAt(p, s, 0, d, y.0, y.1);
    } else {
      OrderAt(p, s, c, d, if c == 1 then cb else cr, if c == 1 then cb else cr);
    }
    AppendOk(p, s, 3);
    AtNext(p, s, 0, d, y.0, y.1);
    AtNext(p, s, 1, d, cb, cb);
    AtNext(p, s, 2, d, cr, cr);
  }

  lemma ColorDc(p: seq<ScanInfo>, ah: int, al: int, d: int, v: int)
    requires ScansOk(p, 3) && AllAt(p, 3, d, v, v) && 0 <= ah <= 10 && 0 <= al <= 10
    requires if d < 0 then ah == 0 else ah == d && al == d - 1
    ensures Color(p + Dc(3, ah, al), al, (v, v), v, v)
  {
    hide ScansOk, At;
    DcDone(p, 3, ah, al, d, v, v);
  }

  lemma ColorAll(p: seq<ScanInfo>, d: int, v: int)
    requires Color(p, d, (v, v), v, v)
    ensures ScansOk(p, 3) && AllAt(p, 3, d, v, v)
  {
  }

  lemma ColorLegal()
    ensures ScansOk(Script(3, true), 3) && AllAt(Script(3, true), 3, 0, 0, 0)
  {
    hide ScansOk, AllAt, Dc, Color, One;
    NothingYet(3);
    ColorDc([], 0, 1, -1, -1);
    assert [] + Dc(3, 0, 1) == Dc(3, 0, 1);
    var p := Dc(3, 0, 1);
    ColorNext(p, 0, 1, 5, 0, 2, 1, (-1, -1), -1, -1);
    p := p + [One(0, 1, 5, 0, 2)];
    ColorNext(p, 2, 1, 63, 0, 1, 1, (2, -1), -1, -1);
    p := p + [One(2, 1, 63, 0, 1)];
    ColorNext(p, 1, 1, 63, 0, 1, 1, (2, -1), -1, 1);
    p := p + [One(1, 1, 63, 0, 1)];
    ColorNext(p, 0, 6, 63, 0, 2, 1, (2, -1), 1, 1);
    p := p + [One(0, 6, 63, 0, 2)];
    ColorNext(p, 0, 1, 63, 2, 1, 1, (2, 2), 1, 1);
    p := p + [One(0, 1, 63, 2, 1)];
    ColorAll(p, 1, 1);
    ColorDc(p, 1, 0, 1, 1);
    p := p + Dc(3, 1, 0);
    ColorNext(p, 2, 1, 63, 1, 0, 0, (1, 1), 1, 1);
    p := p + [One(2, 1, 63, 1, 0)];
    ColorNext(p, 1, 1, 63, 1, 0, 0, (1, 1), 1, 0);
    p := p + [One(1, 1, 63, 1, 0)];
    ColorNext(p, 0, 1, 63, 1, 0, 0, (1, 1), 0, 0);
    p := p + [One(0, 1, 63, 1, 0)];
    ColorAll(p, 0, 0);
  }

  /** The recommended script is accepted as progressive, for any number of components and
      any color space, and brings every coefficient to its last bit. */
  lemma SimpleLegal(n: nat, ycc: bool)
    requires 1 <= n
    ensures Script(n, ycc) != [] && IsProgressive(Script(n, ycc))
    ensures Legal(Script(n, ycc), n) && Finished(Script(n, ycc), n)
  {
    hide ScansOk, AllAt, LastAl;
    if n == 3 && ycc {
      ColorLegal();
    } else {
      PlainLegal(n);
    }
    AllFinished(Script(n, ycc), n);
  }
}
