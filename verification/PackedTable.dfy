/** The probability estimation table as it is stored (jaricom.c): a word for each state, with
    the estimate above the next state after an MPS, the switch of the more probable symbol and
    the next state after an LPS; and what one decision does, said with these words. */
module PackedTable {
  import opened Powers
  import opened Bytes
  import opened IntervalCoder
  import opened ProbabilityTable

  /** The stored words of states 8g to 8g + 7. */
  function Words(g: nat): seq<nat>
  {
    match g
    case 0 => [0x5A1D0181, 0x2586020E, 0x11140310, 0x080B0412, 0x03D80514, 0x01DA0617, 0x00E50719, 0x006F081C]
    case 1 => [0x0036091E, 0x001A0A21, 0x000D0B23, 0x00060C09, 0x00030D0A, 0x00010D0C, 0x5A7F0F8F, 0x3F251024]
    case 2 => [0x2CF21126, 0x207C1227, 0x17B91328, 0x1182142A, 0x0CEF152B, 0x09A1162D, 0x072F172E, 0x055C1830]
    case 3 => [0x04061931, 0x03031A33, 0x02401B34, 0x01B11C36, 0x01441D38, 0x00F51E39, 0x00B71F3B, 0x008A203C]
    case 4 => [0x0068213E, 0x004E223F, 0x003B2320, 0x002C0921, 0x5AE125A5, 0x484C2640, 0x3A0D2741, 0x2EF12843]
    case 5 => [0x261F2944, 0x1F332A45, 0x19A82B46, 0x15182C48, 0x11772D49, 0x0E742E4A, 0x0BFB2F4B, 0x09F8304D]
    case 6 => [0x0861314E, 0x0706324F, 0x05CD3330, 0x04DE3432, 0x040F3532, 0x03633633, 0x02D43734, 0x025C3835]
    case 7 => [0x01F83936, 0x01A43A37, 0x01603B38, 0x01253C39, 0x00F63D3A, 0x00CB3E3B, 0x00AB3F3D, 0x008F203D]
    case 8 => [0x5B1241C1, 0x4D044250, 0x412C4351, 0x37D84452, 0x2FE84553, 0x293C4654, 0x23794756, 0x1EDF4857]
    case 9 => [0x1AA94957, 0x174E4A48, 0x14244B48, 0x119C4C4A, 0x0F6B4D4A, 0x0D514E4B, 0x0BB64F4D, 0x0A40304D]
    case 10 => [0x583251D0, 0x4D1C5258, 0x438E5359, 0x3BDD545A, 0x34EE555B, 0x2EAE565C, 0x299A575D, 0x25164756]
    case 11 => [0x557059D8, 0x4CA95A5F, 0x44D95B60, 0x3E225C61, 0x38245D63, 0x32B45E63, 0x2E17565D, 0x56A860DF]
    case 12 => [0x4F466165, 0x47E56266, 0x41CF6367, 0x3C3D6468, 0x375E5D63, 0x52316669, 0x4C0F676A, 0x4639686B]
    case 13 => [0x415E6367, 0x56276AE9, 0x50E76B6C, 0x4B85676D, 0x55976D6E, 0x504F6B6F, 0x5A106FEE, 0x55226D70]
    case 14 => [0x59EB6FF0, 0x5A1D7171]
    case _ => []
  }

  /** The macro V, with sums for its bits. */
  function Word(r: Row): nat
  {
    0x1_0000 * r.qe + 0x100 * r.nextMps + (if r.switchMps then 0x80 else 0) + r.nextLps
  }

  predicate Packed(i: RowIndex)
  {
    i % 8 < |Words(i / 8)| && Word(RowAt(i)) == Words(i / 8)[i % 8]
  }

  /** An MPS does not raise the estimate; an LPS does, unless the sense is switched or the
      estimate is fixed. */
  predicate Lawful(i: RowIndex)
  {
    && RowAt(RowAt(i).nextMps).qe <= RowAt(i).qe
    && (RowAt(i).switchMps || i == 113 || RowAt(RowAt(i).nextLps).qe > RowAt(i).qe)
  }

  predicate AllPacked(from: nat, n: nat)
    requires from + n <= ROWS
  {
    n == 0 || (Packed(from + n - 1) && AllPacked(from, n - 1))
  }

  predicate AllLawful(from: nat, n: nat)
    requires from + n <= ROWS
  {
    n == 0 || (Lawful(from + n - 1) && AllLawful(from, n - 1))
  }

  lemma Packed0()
    ensures AllPacked(0, 8)
  {
  }

  lemma Packed8()
    ensures AllPacked(8, 8)
  {
  }

  lemma Packed16()
    ensures AllPacked(16, 8)
  {
  }

  lemma Packed24()
    ensures AllPacked(24, 8)
  {
  }

  lemma Packed32()
    ensures AllPacked(32, 8)
  {
  }

  lemma Packed40()
    ensures AllPacked(40, 8)
  {
  }

  lemma Packed48()
    ensures AllPacked(48, 8)
  {
  }

  lemma Packed56()
    ensures AllPacked(56, 8)
  {
  }

  lemma Packed64()
    ensures AllPacked(64, 8)
  {
  }

  lemma Packed72()
    ensures AllPacked(72, 8)
  {
  }

  lemma Packed80()
    ensures AllPacked(80, 8)
  {
  }

  lemma Packed88()
    ensures AllPacked(88, 8)
  {
  }

  lemma Packed96()
    ensures AllPacked(96, 8)
  {
  }

  lemma Packed104()
    ensures AllPacked(104, 8)
  {
  }

  lemma Packed112()
    ensures AllPacked(112, 2)
  {
  }

  lemma Lawful0()
    ensures AllLawful(0, 8)
  {
  }

  lemma Lawful8()
    ensures AllLawful(8, 8)
  {
  }

  lemma Lawful16()
    ensures AllLawful(16, 8)
  {
  }

  lemma Lawful24()
    ensures AllLawful(24, 8)
  {
  }

  lemma Lawful32()
    ensures AllLawful(32, 8)
  {
  }

  lemma Lawful40()
    ensures AllLawful(40, 8)
  {
  }

  lemma Lawful48()
    ensures AllLawful(48, 8)
  {
  }

  lemma Lawful56()
    ensures AllLawful(56, 8)
  {
  }

  lemma Lawful64()
    ensures AllLawful(64, 8)
  {
  }

  lemma Lawful72()
    ensures AllLawful(72, 8)
  {
  }

  lemma Lawful80()
    ensures AllLawful(80, 8)
  {
  }

  lemma Lawful88()
    ensures AllLawful(88, 8)
  {
  }

  lemma Lawful96()
    ensures AllLawful(96, 8)
  {
  }

  lemma Lawful104()
    ensures AllLawful(104, 8)
  {
  }

  lemma Lawful112()
    ensures AllLawful(112, 2)
  {
  }

  lemma {:induction false} PackedAt(from: nat, n: nat, i: nat)
    requires from + n <= ROWS && from <= i < from + n && AllPacked(from, n)
    ensures Packed(i)
    decreases n
  {
    hide Packed;
    if i != from + n - 1 {
      PackedAt(from, n - 1, i);
    }
  }

  lemma {:induction false} LawfulAt(from: nat, n: nat, i: nat)
    requires from + n <= ROWS && from <= i < from + n && AllLawful(from, n)
    ensures Lawful(i)
    decreases n
  {
    hide Lawful;
    if i != from + n - 1 {
      LawfulAt(from, n - 1, i);
    }
  }

  lemma RowPacked(i: RowIndex)
    ensures Packed(i)
  {
    hide Packed, AllPacked;
    match i / 8 {
      case 0 => Packed0(); PackedAt(0, 8, i);
      case 1 => Packed8(); PackedAt(8, 8, i);
      case 2 => Packed16(); PackedAt(16, 8, i);
      case 3 => Packed24(); PackedAt(24, 8, i);
      case 4 => Packed32(); PackedAt(32, 8, i);
      case 5 => Packed40(); PackedAt(40, 8, i);
      case 6 => Packed48(); PackedAt(48, 8, i);
      case 7 => Packed56(); PackedAt(56, 8, i);
      case 8 => Packed64(); PackedAt(64, 8, i);
      case 9 => Packed72(); PackedAt(72, 8, i);
      case 10 => Packed80(); PackedAt(80, 8, i);
      case 11 => Packed88(); PackedAt(88, 8, i);
      case 12 => Packed96(); PackedAt(96, 8, i);
      case 13 => Packed104(); PackedAt(104, 8, i);
      case _ => Packed112(); PackedAt(112, 2, i);
    }
  }

  lemma Unpacked(q: nat, m: nat, b: nat, l: nat, w: nat)
    requires w == 0x1_0000 * q + 0x100 * m + 0x80 * b + l && m < 0x80 && b < 2 && l < 0x80
    ensures w / 0x1_0000 == q && w / 0x100 % 0x100 == m && w / 0x80 % 2 == b && w % 0x80 == l
    ensures w % 0x100 == 0x80 * b + l
  {
    assert w / 0x80 == 0x200 * q + 2 * m + b;
    assert w / 0x100 == 0x100 * q + m;
    assert w % 0x100 == w - 0x100 * (w / 0x100);
  }

  /** Every row is what its word says. */
  lemma TablePacked(i: RowIndex)
    ensures i % 8 < |Words(i / 8)|
    ensures var r, w := RowAt(i), Words(i / 8)[i % 8];
      && r.qe == w / 0x1_0000 && r.nextMps == w / 0x100 % 0x100
      && (r.switchMps <==> w / 0x80 % 2 == 1) && r.nextLps == w % 0x80
  {
    hide RowAt, Words;
    RowPacked(i);
    var r := RowAt(i);
    Unpacked(r.qe, r.nextMps, if r.switchMps then 1 else 0, r.nextLps, Words(i / 8)[i % 8]);
  }

  lemma TableLawful(i: RowIndex)
    ensures Lawful(i)
  {
    hide Lawful, AllLawful;
    match i / 8 {
      case 0 => Lawful0(); LawfulAt(0, 8, i);
      case 1 => Lawful8(); LawfulAt(8, 8, i);
      case 2 => Lawful16(); LawfulAt(16, 8, i);
      case 3 => Lawful24(); LawfulAt(24, 8, i);
      case 4 => Lawful32(); LawfulAt(32, 8, i);
      case 5 => Lawful40(); LawfulAt(40, 8, i);
      case 6 => Lawful48(); LawfulAt(48, 8, i);
      case 7 => Lawful56(); LawfulAt(56, 8, i);
      case 8 => Lawful64(); LawfulAt(64, 8, i);
      case 9 => Lawful72(); LawfulAt(72, 8, i);
      case 10 => Lawful80(); LawfulAt(80, 8, i);
      case 11 => Lawful88(); LawfulAt(88, 8, i);
      case 12 => Lawful96(); LawfulAt(96, 8, i);
      case 13 => Lawful104(); LawfulAt(104, 8, i);
      case _ => Lawful112(); LawfulAt(112, 2, i);
    }
  }

  // ------------------------------------------------------------- one decision

  /** The word of a bin's state. */
  function WordOf(sv: byte): nat
    requires IsBin(sv)
  {
    RowPacked(sv % 128);
    Words(sv % 128 / 8)[sv % 128 % 8]
  }

  /** Exclusive or of the top bit of `sv`, the sense of the more probable symbol, with the low
      byte of a word. */
  function Switched(sv: byte, low: nat): nat
  {
    (sv / 0x80 + low / 0x80) % 2 * 0x80 + low % 0x80
  }

  lemma SwitchedIs(sv: byte, b: nat, l: nat)
    requires b < 2 && l < 0x80
    ensures Switched(sv, 0x80 * b + l) == (if b == 1 then 1 - sv / 0x80 else sv / 0x80) * 0x80 + l
  {
    assert (0x80 * b + l) / 0x80 == b && (0x80 * b + l) % 0x80 == l;
  }

  lemma WordIs(sv: byte)
    requires IsBin(sv)
    ensures var r, w := RowOf(sv), WordOf(sv);
      && w / 0x1_0000 == r.qe && w / 0x100 % 0x100 == r.nextMps
      && w % 0x100 == 0x80 * (if r.switchMps then 1 else 0) + r.nextLps
  {
    hide RowAt, Words;
    RowPacked(sv % 128);
    var r := RowAt(sv % 128);
    Unpacked(r.qe, r.nextMps, if r.switchMps then 1 else 0, r.nextLps, WordOf(sv));
  }

  /** How the bin changes: after an LPS to the low byte of its word, after an MPS that leaves
      the interval below 0x8000 to the next byte, else not at all. */
  lemma AdaptPacked(sv: byte, below: nat, isLps: bool)
    requires IsBin(sv)
    ensures Qe(sv) == WordOf(sv) / 0x1_0000
    ensures Adapt(sv, below, isLps)
         == if isLps then Switched(sv, WordOf(sv) % 0x100)
            else if below < 0x8000 then sv / 0x80 * 0x80 + WordOf(sv) / 0x100 % 0x100 else sv
  {
    hide RowOf, WordOf, Switched;
    WordIs(sv);
    SwitchedIs(sv, if RowOf(sv).switchMps then 1 else 0, RowOf(sv).nextLps);
  }

  /** One decision: the interval is cut at its width less the estimate; the LPS gets the upper
      part, or the MPS if the lower one would be smaller than the estimate. */
  lemma StepPacked(k: Coder, d: Decision)
    requires ValidCoder(k) && LegalDecision(d)
    ensures var sv, iv := k.stats[d.bin], k.iv;
      var qe := WordOf(sv) / 0x1_0000;
      var isLps := d.bit != sv / 0x80;
      && qe < iv.width
      && (var below: nat := iv.width - qe;
          var part := if isLps == (qe <= below) then Interval(iv.low + below, qe, iv.shift)
                      else Interval(iv.low, below, iv.shift);
          var next := if isLps then Switched(sv, WordOf(sv) % 0x100)
                      else if below < 0x8000 then sv / 0x80 * 0x80 + WordOf(sv) / 0x100 % 0x100 else sv;
          && 0 < part.width && 0 <= next < 256
          && Step(k, d) == Coder(Renorm(part), k.stats[d.bin := next]))
  {
    hide RowAt, Words, Renorm, Adapt;
    var sv := k.stats[d.bin];
    StatsUpdate(k.stats, d.bin, sv);
    AdaptPacked(sv, k.iv.width - Qe(sv), d.bit != Mps(sv));
  }

  /** Renormalization doubles the interval until it is at least 0x8000 wide. */
  lemma {:induction false} RenormDoubles(iv: Interval) returns (n: nat)
    requires 0 < iv.width <= 0x1_0000
    ensures Renorm(iv) == Interval(iv.low * Pow2(n), iv.width * Pow2(n), iv.shift + n)
    ensures iv.width * Pow2(n) >= 0x8000 && (n > 0 ==> iv.width * Pow2(n - 1) < 0x8000)
    decreases 0x1_0000 - iv.width
  {
    if iv.width < 0x8000 {
      var m := RenormDoubles(Double(iv));
      n := m + 1;
      DoublePow(iv.low, m);
      DoublePow(iv.width, m);
      if m > 0 {
        DoublePow(iv.width, m - 1);
      }
    } else {
      n := 0;
    }
  }

  lemma DoublePow(x: nat, m: nat)
    ensures 2 * x * Pow2(m) == x * Pow2(m + 1)
  {
    MulShuffle(2, x, Pow2(m));
  }

  // ---------------------------------------------------------------- an example

  /** One more 0 coded in the bin, which leads to the state `sv` and the interval. */
  lemma NextZero(stats: Stats, k: Coder, ds: seq<Decision>, bin: Bin, sv: byte, low: nat, width: nat, shift: nat)
    returns (next: Coder, longer: seq<Decision>)
    requires ValidStats(stats) && LegalRun(ds) && k == Run(Coder(START, stats), ds)
    requires ValidCoder(k) && Legal(bin) && k.stats[bin] < 3
    requires var w, iv := WordOf(k.stats[bin]), k.iv;
      var qe := w / 0x1_0000;
      && qe < iv.width
      && (var below: nat := iv.width - qe;
          var part := if qe <= below then Interval(iv.low, below, iv.shift)
                      else Interval(iv.low + below, qe, iv.shift);
          && 0 < part.width && Interval(low, width, shift) == Renorm(part)
          && sv == if below < 0x8000 then w / 0x100 % 0x100 else k.stats[bin])
    ensures longer == ds + [Decision(bin, 0)] && LegalRun(longer) && next == Run(Coder(START, stats), longer)
    ensures ValidCoder(next)
    ensures next.iv == Interval(low, width, shift) && next.stats[bin] == sv
  {
    hide WordOf, Renorm, Step, RowAt, Run, LegalRun;
    next, longer := Step(k, Decision(bin, 0)), ds + [Decision(bin, 0)];
    StepPacked(k, Decision(bin, 0));
    RunSnoc(Coder(START, stats), ds, Decision(bin, 0));
  }

  /** Eight decisions 0 in a bin that begins at state 0: it ends at state 2, and the byte written
      is 0x60. */
  lemma EightZeros(stats: Stats, bin: Bin)
    requires ValidStats(stats) && Legal(bin) && stats[bin] == 0
    ensures var ds := seq(8, _ => Decision(bin, 0));
      && LegalRun(ds) && Run(Coder(START, stats), ds).stats[bin] == 2
      && IsCode(Run(Coder(START, stats), ds).iv, [0x60])
  {
    hide Step, Run, ValidStats, LegalRun, RowAt, IsCode;
    var k, ds := Coder(START, stats), [];
    NoneYet(k);
    k, ds := NextZero(stats, k, ds, bin, 0, 0x0, 0xa5e3, 0);
    k, ds := NextZero(stats, k, ds, bin, 1, 0x978c, 0xb43a, 1);
    k, ds := NextZero(stats, k, ds, bin, 1, 0x978c, 0x8eb4, 1);
    k, ds := NextZero(stats, k, ds, bin, 2, 0x12f18, 0xd25c, 2);
    k, ds := NextZero(stats, k, ds, bin, 2, 0x12f18, 0xc148, 2);
    k, ds := NextZero(stats, k, ds, bin, 2, 0x12f18, 0xb034, 2);
    k, ds := NextZero(stats, k, ds, bin, 2, 0x12f18, 0x9f20, 2);
    k, ds := NextZero(stats, k, ds, bin, 2, 0x12f18, 0x8e0c, 2);
    assert ds == seq(8, _ => Decision(bin, 0));
    ByteSixty(k.iv);
  }

  lemma NoneYet(k: Coder)
    requires ValidCoder(k)
    ensures LegalRun([]) && Run(k, []) == k
  {
  }

  lemma ByteSixty(iv: Interval)
    requires iv == Interval(0x12f18, 0x8e0c, 2)
    ensures IsCode(iv, [0x60])
  {
    assert Val([0x60]) == 0x60;
  }
}
