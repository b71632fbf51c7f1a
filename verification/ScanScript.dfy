/** Scan scripts: what validate_script accepts (jcmaster.c), reduce_script, and the checks
    the decoder makes at the start of a progressive scan (jdhuff.c, jdarith.c). */
module ScanScript {
  const DCTSIZE2 := 64
  const MAX_COMPS_IN_SCAN := 4
  const MAX_AH_AL := 10

  /** jpeg_scan_info: the component indexes and the progression parameters of a scan. */
  datatype ScanInfo = ScanInfo(comps: seq<int>, ss: int, se: int, ah: int, al: int)

  predicate Covers(s: ScanInfo, c: int, j: int)
  {
    c in s.comps && s.ss <= j <= s.se
  }

  /** The Al of the last scan that sends coefficient `j` of component `c`, or -1. */
  function LastAl(scans: seq<ScanInfo>, c: int, j: int): int
    decreases |scans|
  {
    if scans == [] then -1
    else if Covers(scans[|scans| - 1], c, j) then scans[|scans| - 1].al
    else LastAl(scans[..|scans| - 1], c, j)
  }

  // --------------------------------------------------------------- what is legal

  /** One to four components of `n`, in the order of the frame. */
  predicate CompsOk(s: ScanInfo, n: nat)
  {
    && 1 <= |s.comps| <= 4
    && (forall i :: 0 <= i < |s.comps| ==> 0 <= s.comps[i] < n)
    && forall i, k :: 0 <= i < k < |s.comps| ==> s.comps[i] < s.comps[k]
  }

  predicate ParamsOk(s: ScanInfo)
  {
    && 0 <= s.ss <= s.se < 64 && 0 <= s.ah <= 10 && 0 <= s.al <= 10
    && if s.ss == 0 then s.se == 0 else |s.comps| == 1
  }

  /** Coefficient `j` of component `c` may be sent with these stages after `scans`. */
  predicate StepOk(scans: seq<ScanInfo>, s: ScanInfo, c: int, j: int)
  {
    var last := LastAl(scans, c, j);
    if last < 0 then s.ah == 0 else s.ah == last && s.al == s.ah - 1
  }

  /** A component's coefficients are sent in legal stages, its DC coefficient first. */
  predicate CompOrder(scans: seq<ScanInfo>, s: ScanInfo, c: int)
  {
    && (s.ss != 0 ==> 0 <= LastAl(scans, c, 0))
    && forall j :: s.ss <= j <= s.se ==> StepOk(scans, s, c, j)
  }

  predicate OrderOk(scans: seq<ScanInfo>, s: ScanInfo)
  {
    forall i :: 0 <= i < |s.comps| ==> CompOrder(scans, s, s.comps[i])
  }

  predicate ScanOk(scans: seq<ScanInfo>, s: ScanInfo, n: nat)
  {
    CompsOk(s, n) && ParamsOk(s) && OrderOk(scans, s)
  }

  ghost predicate ScansOk(scans: seq<ScanInfo>, n: nat)
  {
    forall k :: 0 <= k < |scans| ==> ScanOk(scans[..k], scans[k], n)
  }

  ghost predicate ProgressiveLegal(scans: seq<ScanInfo>, n: nat)
  {
    ScansOk(scans, n) && forall c :: 0 <= c < n ==> 0 <= LastAl(scans, c, 0)
  }

  predicate Whole(s: ScanInfo)
  {
    s.ss == 0 && s.se == 63 && s.ah == 0 && s.al == 0
  }

  predicate Sent(scans: seq<ScanInfo>, c: int)
  {
    exists k :: 0 <= k < |scans| && c in scans[k].comps
  }

  /** Each scan sends whole blocks, of components that were not sent before. */
  ghost predicate WholeScans(scans: seq<ScanInfo>, n: nat)
  {
    forall k :: 0 <= k < |scans| ==>
      && CompsOk(scans[k], n) && Whole(scans[k])
      && forall i :: 0 <= i < |scans[k].comps| ==> !Sent(scans[..k], scans[k].comps[i])
  }

  ghost predicate SequentialLegal(scans: seq<ScanInfo>, n: nat)
  {
    WholeScans(scans, n) && forall c :: 0 <= c < n ==> Sent(scans, c)
  }

  predicate IsProgressive(scans: seq<ScanInfo>)
    requires scans != []
  {
    scans[0].ss != 0 || scans[0].se != 63
  }

  ghost predicate Legal(scans: seq<ScanInfo>, n: nat)
  {
    scans != [] && if IsProgressive(scans) then ProgressiveLegal(scans, n) else SequentialLegal(scans, n)
  }

  // --------------------------------------------------------------- validate_script

  datatype Verdict = Accepted(progressive: bool) | Refused

  method CheckComps(s: ScanInfo, n: nat) returns (ok: bool)
    ensures ok == CompsOk(s, n)
  {
    var ncomps := |s.comps|;
    if ncomps <= 0 || ncomps > MAX_COMPS_IN_SCAN {
      return false;
    }
    for ci := 0 to ncomps
      invariant forall i :: 0 <= i < ci ==> 0 <= s.comps[i] < n
      invariant forall i, k :: 0 <= i < k < ci ==> s.comps[i] < s.comps[k]
    {
      var thisi := s.comps[ci];
      if thisi < 0 || thisi >= n {
        return false;
      }
      if ci > 0 && thisi <= s.comps[ci - 1] {
        return false;
      }
    }
    return true;
  }

  /** last_bitpos after `scans`: every coefficient's last Al. */
  ghost predicate Tracks(bitpos: array2<int>, scans: seq<ScanInfo>, n: nat)
    reads bitpos
  {
    && bitpos.Length0 == n && bitpos.Length1 == DCTSIZE2
    && forall c, j :: 0 <= c < n && 0 <= j < DCTSIZE2 ==> bitpos[c, j] == LastAl(scans, c, j)
  }

  /** The same when the first `ci` components of scan `s` were taken in. */
  ghost predicate Partly(bitpos: array2<int>, scans: seq<ScanInfo>, s: ScanInfo, n: nat, ci: nat)
    requires ci <= |s.comps|
    reads bitpos
  {
    && bitpos.Length0 == n && bitpos.Length1 == DCTSIZE2
    && forall c, j :: 0 <= c < n && 0 <= j < DCTSIZE2 ==>
         bitpos[c, j] == LastAl(if c in s.comps[..ci] then scans + [s] else scans, c, j)
  }

  lemma LastIs(scans: seq<ScanInfo>, s: ScanInfo, c: int, j: int)
    ensures LastAl(scans + [s], c, j) == if Covers(s, c, j) then s.al else LastAl(scans, c, j)
  {
    assert (scans + [s])[..|scans|] == scans;
  }

  /** The coefficients of one component, from Ss to Se. */
  method CheckComponent(bitpos: array2<int>, s: ScanInfo, ci: nat, n: nat, ghost scans: seq<ScanInfo>)
    returns (ok: bool)
    requires CompsOk(s, n) && ParamsOk(s) && ci < |s.comps| && Partly(bitpos, scans, s, n, ci)
    modifies bitpos
    ensures ok == CompOrder(scans, s, s.comps[ci])
    ensures ok ==> Partly(bitpos, scans, s, n, ci + 1)
  {
    var c := s.comps[ci];
    assert c !in s.comps[..ci];
    if s.ss != 0 && bitpos[c, 0] < 0 {
      return false;
    }
    var coefi := s.ss;
    while coefi <= s.se
      invariant s.ss <= coefi <= s.se + 1
      invariant forall j :: s.ss <= j < coefi ==> StepOk(scans, s, c, j)
      invariant forall j :: 0 <= j < DCTSIZE2 ==>
                  bitpos[c, j] == if s.ss <= j < coefi then s.al else LastAl(scans, c, j)
      invariant forall d, j :: 0 <= d < n && d != c && 0 <= j < DCTSIZE2 ==> bitpos[d, j] == old(bitpos[d, j])
    {
      if bitpos[c, coefi] < 0 {
        if s.ah != 0 {
          assert !StepOk(scans, s, c, coefi);
          return false;
        }
      } else {
        if s.ah != bitpos[c, coefi] || s.al != s.ah - 1 {
          assert !StepOk(scans, s, c, coefi);
          return false;
        }
      }
      bitpos[c, coefi] := s.al;
      coefi := coefi + 1;
    }
    assert s.comps[..ci + 1] == s.comps[..ci] + [c];
    forall d, j | 0 <= d < n && 0 <= j < DCTSIZE2
      ensures bitpos[d, j] == LastAl(if d in s.comps[..ci + 1] then scans + [s] else scans, d, j)
    {
      LastIs(scans, s, d, j);
    }
    return true;
  }

  lemma TakenIn(bitpos: array2<int>, scans: seq<ScanInfo>, s: ScanInfo, n: nat)
    requires Partly(bitpos, scans, s, n, |s.comps|)
    ensures Tracks(bitpos, scans + [s], n)
  {
    forall c, j | 0 <= c < n && 0 <= j < DCTSIZE2
      ensures bitpos[c, j] == LastAl(scans + [s], c, j)
    {
      LastIs(scans, s, c, j);
      assert s.comps[..|s.comps|] == s.comps;
    }
  }

  method CheckProgressive(bitpos: array2<int>, s: ScanInfo, n: nat, ghost scans: seq<ScanInfo>) returns (ok: bool)
    requires CompsOk(s, n) && Tracks(bitpos, scans, n)
    modifies bitpos
    ensures ok == ScanOk(scans, s, n)
    ensures ok ==> Tracks(bitpos, scans + [s], n)
  {
    var ncomps := |s.comps|;
    if s.ss < 0 || s.ss >= DCTSIZE2 || s.se < s.ss || s.se >= DCTSIZE2 ||
       s.ah < 0 || s.ah > MAX_AH_AL || s.al < 0 || s.al > MAX_AH_AL {
      return false;
    }
    if s.ss == 0 {
      if s.se != 0 {
        return false;
      }
    } else {
      if ncomps != 1 {
        return false;
      }
    }
    for ci := 0 to ncomps
      invariant Partly(bitpos, scans, s, n, ci)
      invariant forall i :: 0 <= i < ci ==> CompOrder(scans, s, s.comps[i])
    {
      var one := CheckComponent(bitpos, s, ci, n, scans);
      if !one {
        return false;
      }
    }
    TakenIn(bitpos, scans, s, n);
    return true;
  }

  method CheckWhole(sent: array<bool>, s: ScanInfo, n: nat, ghost scans: seq<ScanInfo>) returns (ok: bool)
    requires CompsOk(s, n) && sent.Length == n && forall c :: 0 <= c < n ==> sent[c] == Sent(scans, c)
    modifies sent
    ensures ok == (Whole(s) && forall i :: 0 <= i < |s.comps| ==> !Sent(scans, s.comps[i]))
    ensures ok ==> forall c :: 0 <= c < n ==> sent[c] == Sent(scans + [s], c)
  {
    if s.ss != 0 || s.se != DCTSIZE2 - 1 || s.ah != 0 || s.al != 0 {
      return false;
    }
    for ci := 0 to |s.comps|
      invariant forall i :: 0 <= i < ci ==> !Sent(scans, s.comps[i])
      invariant forall c :: 0 <= c < n ==> sent[c] == (Sent(scans, c) || c in s.comps[..ci])
    {
      var thisi := s.comps[ci];
      assert thisi !in s.comps[..ci];
      if sent[thisi] {
        return false;
      }
      sent[thisi] := true;
      assert s.comps[..ci + 1] == s.comps[..ci] + [thisi];
    }
    forall c | 0 <= c < n
      ensures sent[c] == Sent(scans + [s], c)
    {
      SentNext(scans, s, c);
      assert s.comps[..|s.comps|] == s.comps;
    }
    return true;
  }

  lemma SentNext(scans: seq<ScanInfo>, s: ScanInfo, c: int)
    ensures Sent(scans + [s], c) <==> Sent(scans, c) || c in s.comps
  {
    var all := scans + [s];
    if c in s.comps {
      assert c in all[|scans|].comps;
    } else if Sent(scans, c) {
      var k :| 0 <= k < |scans| && c in scans[k].comps;
      assert c in all[k].comps;
    }
  }

  /** validate_script for a frame of `n` components. */
  method ValidateScript(scans: seq<ScanInfo>, n: nat) returns (v: Verdict)
    ensures v.Accepted? <==> Legal(scans, n)
    ensures v.Accepted? ==> v.progressive == IsProgressive(scans)
  {
    if |scans| <= 0 {
      return Refused;
    }
    var progressive := scans[0].ss != 0 || scans[0].se != DCTSIZE2 - 1;
    if progressive {
      var ok := ValidateProgressive(scans, n);
      return if ok then Accepted(true) else Refused;
    } else {
      var ok := ValidateSequential(scans, n);
      return if ok then Accepted(false) else Refused;
    }
  }

  method ValidateProgressive(scans: seq<ScanInfo>, n: nat) returns (ok: bool)
    ensures ok == ProgressiveLegal(scans, n)
  {
    var bitpos := new int[n, DCTSIZE2]((i, k) => -1);
    for scanno := 0 to |scans|
      invariant ScansOk(scans[..scanno], n) && Tracks(bitpos, scans[..scanno], n)
    {
      assert scans[..scanno + 1] == scans[..scanno] + [scans[scanno]];
      OneMore(scans, scanno, n);
      ok := CheckComps(scans[scanno], n);
      if !ok {
        return;
      }
      ok := CheckProgressive(bitpos, scans[scanno], n, scans[..scanno]);
      if !ok {
        return;
      }
    }
    assert scans[..|scans|] == scans;
    for ci := 0 to n
      invariant forall c :: 0 <= c < ci ==> 0 <= LastAl(scans, c, 0)
    {
      if bitpos[ci, 0] < 0 {
        return false;
      }
    }
    return true;
  }

  lemma OneMore(scans: seq<ScanInfo>, k: nat, n: nat)
    requires k < |scans|
    ensures ScansOk(scans[..k + 1], n) <==> ScansOk(scans[..k], n) && ScanOk(scans[..k], scans[k], n)
    ensures ScansOk(scans, n) ==> ScanOk(scans[..k], scans[k], n)
    ensures WholeScans(scans[..k + 1], n) <==>
            && WholeScans(scans[..k], n) && CompsOk(scans[k], n) && Whole(scans[k])
            && forall i :: 0 <= i < |scans[k].comps| ==> !Sent(scans[..k], scans[k].comps[i])
  {
    hide ScanOk, CompsOk, Whole, Sent;
    var a, b := scans[..k], scans[..k + 1];
    assert forall i :: 0 <= i <= k ==> b[..i] == scans[..i];
    assert forall i :: 0 <= i <= k ==> a[..i] == scans[..i];
    assert b[k] == scans[k];
    assert forall i :: 0 <= i < k ==> b[i] == a[i];
  }

  method ValidateSequential(scans: seq<ScanInfo>, n: nat) returns (ok: bool)
    ensures ok == SequentialLegal(scans, n)
  {
    var sent := new bool[n](i => false);
    for scanno := 0 to |scans|
      invariant WholeScans(scans[..scanno], n)
      invariant forall c :: 0 <= c < n ==> sent[c] == Sent(scans[..scanno], c)
    {
      assert scans[..scanno + 1] == scans[..scanno] + [scans[scanno]];
      OneMore(scans, scanno, n);
      ok := CheckComps(scans[scanno], n);
      if !ok {
        return;
      }
      ok := CheckWhole(sent, scans[scanno], n, scans[..scanno]);
      if !ok {
        return;
      }
    }
    assert scans[..|scans|] == scans;
    for ci := 0 to n
      invariant forall c :: 0 <= c < ci ==> Sent(scans, c)
    {
      if !sent[ci] {
        return false;
      }
    }
    return true;
  }

  // ----------------------------------------------------------------- reduce_script

  /** A scan cut off after coefficient `lim`. */
  function Cut(s: ScanInfo, lim: nat): ScanInfo
  {
    if s.se > lim then s.(se := lim) else s
  }

  /** The scans that send something up to `lim`. */
  function Reduced(scans: seq<ScanInfo>, lim: nat): (r: seq<ScanInfo>)
    ensures |r| <= |scans|
    decreases |scans|
  {
    if scans == [] then []
    else
      var front, s := Reduced(scans[..|scans| - 1], lim), scans[|scans| - 1];
      if s.ss > lim then front else front + [Cut(s, lim)]
  }

  /** reduce_script, in place. */
  method ReduceScript(a: array<ScanInfo>, lim: nat) returns (count: nat)
    modifies a
    ensures count <= a.Length && a[..count] == Reduced(old(a[..]), lim)
  {
    ghost var was := a[..];
    var idxout := 0;
    for idxin := 0 to a.Length
      invariant idxout <= idxin
      invariant a[..idxout] == Reduced(was[..idxin], lim)
      invariant a[idxin..] == was[idxin..]
    {
      assert was[..idxin + 1][..idxin] == was[..idxin];
      assert a[idxin] == a[idxin..][0] == was[idxin];
      assert a[idxin + 1..] == a[idxin..][1..] == was[idxin + 1..];
      if idxin != idxout {
        a[idxout] := a[idxin];
      }
      assert a[idxin + 1..] == was[idxin + 1..];
      if a[idxout].ss > lim {
        continue;
      }
      if a[idxout].se > lim {
        a[idxout] := a[idxout].(se := lim);
      }
      idxout := idxout + 1;
    }
    assert was[..a.Length] == was;
    return idxout;
  }

  /** Up to `lim` nothing is lost, and beyond it nothing is sent. */
  lemma {:induction false} ReducedLast(scans: seq<ScanInfo>, lim: nat, c: int, j: int)
    ensures LastAl(Reduced(scans, lim), c, j) == if j <= lim then LastAl(scans, c, j) else -1
    decreases |scans|
  {
    if scans != [] {
      var front, s := scans[..|scans| - 1], scans[|scans| - 1];
      ReducedLast(front, lim, c, j);
      if s.ss <= lim {
        LastIs(Reduced(front, lim), Cut(s, lim), c, j);
      }
    }
  }

  // -------------------------------------------------------------- the decoder's side

  /** What start_pass of a progressive decoder refuses, for blocks that end at `lim`. */
  predicate StartOk(s: ScanInfo, lim: nat)
  {
    && (if s.ss == 0 then s.se == 0 else s.ss <= s.se <= lim && |s.comps| == 1)
    && (s.ah != 0 ==> s.al == s.ah - 1) && s.al <= 13
  }

  function Max0(x: int): nat
  {
    if x < 0 then 0 else x
  }

  /** What it warns about. */
  predicate InOrder(scans: seq<ScanInfo>, s: ScanInfo)
  {
    forall i :: 0 <= i < |s.comps| ==> CompInOrder(scans, s, s.comps[i])
  }

  predicate CompInOrder(scans: seq<ScanInfo>, s: ScanInfo, c: int)
  {
    && (s.ss != 0 ==> 0 <= LastAl(scans, c, 0))
    && forall j :: s.ss <= j <= s.se ==> Expected(scans, s, c, j)
  }

  predicate Expected(scans: seq<ScanInfo>, s: ScanInfo, c: int, j: int)
  {
    s.ah == Max0(LastAl(scans, c, j))
  }

  lemma ExpectedIs(scans: seq<ScanInfo>, s: ScanInfo, c: int, j: int, expected: int)
    requires expected == Max0(LastAl(scans, c, j))
    ensures s.ah == expected <==> Expected(scans, s, c, j)
  {
  }

  /** The checks of start_pass_huff_decoder and of start_pass in jdarith.c: refused, or how
      many warnings; the stages that coef_bits records. */
  method StartProgressive(coefBits: array2<int>, s: ScanInfo, lim: nat, n: nat, ghost scans: seq<ScanInfo>)
    returns (refused: bool, warnings: nat)
    requires CompsOk(s, n) && Tracks(coefBits, scans, n) && lim < DCTSIZE2 && 0 <= s.ss && 0 <= s.ah && 0 <= s.al
    modifies coefBits
    ensures refused <==> !StartOk(s, lim)
    ensures !refused ==> Tracks(coefBits, scans + [s], n) && (warnings == 0 <==> InOrder(scans, s))
  {
    warnings := 0;
    if s.ss == 0 {
      if s.se != 0 {
        return true, 0;
      }
    } else {
      if s.se < s.ss || s.se > lim {
        return true, 0;
      }
      if |s.comps| != 1 {
        return true, 0;
      }
    }
    if s.ah != 0 {
      if s.ah - 1 != s.al {
        return true, 0;
      }
    }
    if s.al > 13 {
      return true, 0;
    }
    for ci := 0 to |s.comps|
      invariant Partly(coefBits, scans, s, n, ci)
      invariant warnings == 0 <==> forall i :: 0 <= i < ci ==> CompInOrder(scans, s, s.comps[i])
    {
      var more := Progress(coefBits, s, ci, n, scans);
      warnings := warnings + more;
    }
    TakenIn(coefBits, scans, s, n);
    return false, warnings;
  }

  method Progress(coefBits: array2<int>, s: ScanInfo, ci: nat, n: nat, ghost scans: seq<ScanInfo>)
    returns (warnings: nat)
    requires CompsOk(s, n) && ci < |s.comps| && Partly(coefBits, scans, s, n, ci)
    requires 0 <= s.ss <= s.se < DCTSIZE2
    modifies coefBits
    ensures warnings == 0 <==> CompInOrder(scans, s, s.comps[ci])
    ensures Partly(coefBits, scans, s, n, ci + 1)
  {
    hide Expected, LastAl;
    warnings := 0;
    var c := s.comps[ci];
    assert c !in s.comps[..ci];
    if s.ss != 0 && coefBits[c, 0] < 0 {
      warnings := warnings + 1;
    }
    var coefi := s.ss;
    while coefi <= s.se
      invariant s.ss <= coefi <= s.se + 1
      invariant warnings == 0 <==>
                (s.ss != 0 ==> 0 <= LastAl(scans, c, 0)) && forall j :: s.ss <= j < coefi ==> Expected(scans, s, c, j)
      invariant forall j :: 0 <= j < DCTSIZE2 ==>
                  coefBits[c, j] == if s.ss <= j < coefi then s.al else LastAl(scans, c, j)
      invariant forall d, j :: 0 <= d < n && d != c && 0 <= j < DCTSIZE2 ==> coefBits[d, j] == old(coefBits[d, j])
    {
      var expected := if coefBits[c, coefi] < 0 then 0 else coefBits[c, coefi];
      ExpectedIs(scans, s, c, coefi, expected);
      if s.ah != expected {
        warnings := warnings + 1;
      }
      coefBits[c, coefi] := s.al;
      coefi := coefi + 1;
    }
    assert s.comps[..ci + 1] == s.comps[..ci] + [c];
    forall d, j | 0 <= d < n && 0 <= j < DCTSIZE2
      ensures coefBits[d, j] == LastAl(if d in s.comps[..ci + 1] then scans + [s] else scans, d, j)
    {
      LastIs(scans, s, d, j);
    }
  }

  /** The decoder takes every scan without an error or a warning. */
  ghost predicate Welcome(scans: seq<ScanInfo>, n: nat, lim: nat)
  {
    forall k :: 0 <= k < |scans| ==> StartOk(scans[k], lim) && CompsOk(scans[k], n) && InOrder(scans[..k], scans[k])
  }

  /** What is legal for the encoder the decoder takes. */
  lemma OkWelcome(scans: seq<ScanInfo>, s: ScanInfo, n: nat, lim: nat)
    requires ScanOk(scans, s, n) && s.se <= lim
    ensures StartOk(s, lim) && InOrder(scans, s)
  {
    forall i | 0 <= i < |s.comps|
      ensures CompInOrder(scans, s, s.comps[i])
    {
      assert CompOrder(scans, s, s.comps[i]);
      forall j | s.ss <= j <= s.se
        ensures Expected(scans, s, s.comps[i], j)
      {
        assert StepOk(scans, s, s.comps[i], j);
      }
    }
    assert CompOrder(scans, s, s.comps[0]);
    assert StepOk(scans, s, s.comps[0], s.ss);
  }

  /** A legal scan cut off at `lim` is legal after the scans cut off there. */
  lemma CutOk(scans: seq<ScanInfo>, s: ScanInfo, n: nat, lim: nat)
    requires ScanOk(scans, s, n) && s.ss <= lim < DCTSIZE2
    ensures ScanOk(Reduced(scans, lim), Cut(s, lim), n)
  {
    var t := Cut(s, lim);
    forall i | 0 <= i < |t.comps|
      ensures CompOrder(Reduced(scans, lim), t, t.comps[i])
    {
      var c := t.comps[i];
      assert CompOrder(scans, s, s.comps[i]);
      ReducedLast(scans, lim, c, 0);
      forall j | t.ss <= j <= t.se
        ensures StepOk(Reduced(scans, lim), t, c, j)
      {
        assert StepOk(scans, s, c, j);
        ReducedLast(scans, lim, c, j);
      }
    }
  }

  lemma AppendOk(scans: seq<ScanInfo>, s: ScanInfo, n: nat)
    requires ScansOk(scans, n) && ScanOk(scans, s, n)
    ensures ScansOk(scans + [s], n)
  {
    hide ScanOk;
    var all := scans + [s];
    assert all[..|scans|] == scans && all[..|scans| + 1] == all;
    OneMore(all, |scans|, n);
  }

  /** Cutting a script off at any coefficient keeps it legal. */
  lemma {:induction false} ReducedLegal(scans: seq<ScanInfo>, n: nat, lim: nat)
    requires ScansOk(scans, n) && lim < DCTSIZE2
    ensures ScansOk(Reduced(scans, lim), n)
    ensures forall k :: 0 <= k < |Reduced(scans, lim)| ==> Reduced(scans, lim)[k].se <= lim
    decreases |scans|
  {
    hide ScanOk, LastAl;
    if scans != [] {
      var front, s := scans[..|scans| - 1], scans[|scans| - 1];
      assert scans[..|scans|] == scans;
      OneMore(scans, |scans| - 1, n);
      ReducedLegal(front, n, lim);
      if s.ss <= lim {
        CutOk(front, s, n, lim);
        AppendOk(Reduced(front, lim), Cut(s, lim), n);
      }
    }
  }

  /** Script legality carries over: whatever script validate_script accepts as progressive,
      and whatever block size reduce_script cuts it to, the decoder takes every scan of it
      without an error and without a progression warning. */
  lemma LegalWelcome(scans: seq<ScanInfo>, n: nat, lim: nat)
    requires ProgressiveLegal(scans, n) && lim < DCTSIZE2
    ensures ProgressiveLegal(Reduced(scans, lim), n) && Welcome(Reduced(scans, lim), n, lim)
  {
    hide StartOk, InOrder, LastAl, CompsOk, ParamsOk, OrderOk;
    var r := Reduced(scans, lim);
    ReducedLegal(scans, n, lim);
    forall c | 0 <= c < n
      ensures 0 <= LastAl(r, c, 0)
    {
      ReducedLast(scans, lim, c, 0);
    }
    forall k | 0 <= k < |r|
      ensures StartOk(r[k], lim) && CompsOk(r[k], n) && InOrder(r[..k], r[k])
    {
      assert ScanOk(r[..k], r[k], n);
      OkWelcome(r[..k], r[k], n, lim);
    }
  }

  /** With full-size blocks nothing is cut. */
  lemma {:induction false} NothingCut(scans: seq<ScanInfo>, n: nat)
    requires ScansOk(scans, n)
    ensures Reduced(scans, DCTSIZE2 - 1) == scans
    decreases |scans|
  {
    hide ScanOk, ScansOk;
    if scans != [] {
      var k := |scans| - 1;
      assert scans[..|scans|] == scans;
      OneMore(scans, k, n);
      ScanFits(scans[..k], scans[k], n);
      NothingCut(scans[..k], n);
      assert scans == scans[..k] + [scans[k]];
    }
  }

  lemma ScanFits(scans: seq<ScanInfo>, s: ScanInfo, n: nat)
    requires ScanOk(scans, s, n)
    ensures s.ss < DCTSIZE2 && s.se < DCTSIZE2
  {
  }
}
