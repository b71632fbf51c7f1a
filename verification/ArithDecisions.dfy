/** Any list of decisions from the registers of the arithmetic encoder, through the bytes it
    writes, to the registers of the decoder. */
module ArithDecisions {
  import opened Bytes
  import opened IntervalCoder
  import opened ArithEncoding
  import opened ArithDecoding

  lemma {:induction false} DecodeRunSnoc(k: Coder, bins: seq<Bin>, bin: Bin, code: seq<byte>)
    requires ValidCoder(k) && AllLegal(bins) && Legal(bin)
    ensures AllLegal(bins + [bin]) && ValidCoder(DecodeRun(k, bins, code).1)
    ensures var (bits, end) := DecodeRun(k, bins, code);
      var (bit, next) := Read(end, bin, code);
      DecodeRun(k, bins + [bin], code) == (bits + [bit], next)
    decreases |bins|
  {
    hide Step, DecodedBit;
    if bins == [] {
      assert bins + [bin] == [bin] && [bin][1..] == [];
      var bit := DecodedBit(k, bin, code);
      RunNothing(Step(k, Decision(bin, bit)), code);
      assert [bit] + [] == [] + [bit];
    } else {
      assert (bins + [bin])[0] == bins[0] && (bins + [bin])[1..] == bins[1..] + [bin];
      var bit := DecodedBit(k, bins[0], code);
      var next := Step(k, Decision(bins[0], bit));
      DecodeRunSnoc(next, bins[1..], bin, code);
      var (bits, end) := DecodeRun(next, bins[1..], code);
      var last := Read(end, bin, code).0;
      assert [bit] + (bits + [last]) == [bit] + bits + [last];
    }
  }

  /** All decisions through arith_encode, and finish_pass. */
  method EncodeAll(e: ArithEncoder, ds: seq<Decision>)
    requires e.Valid() && e.history == [] && LegalRun(ds) && ValidStats(e.initial)
    modifies e
    ensures e.initial == old(e.initial) && e.before == old(e.before)
    ensures IsCode(Run(Coder(START, e.initial), ds).iv, e.emitted) && e.out == e.before + Stuff(e.emitted)
    ensures e.stats == Run(Coder(START, e.initial), ds).stats
  {
    hide ArithEncoder.Valid, ArithEncoder.Ready, Run, IsCode, Stuff, ValidStats, LegalRun;
    for i := 0 to |ds|
      invariant e.Valid() && e.history == ds[..i]
      invariant e.initial == old(e.initial) && e.before == old(e.before)
    {
      LegalAt(ds, i);
      e.Encode(ds[i].bin, ds[i].bit);
      assert ds[..i + 1] == ds[..i] + [ds[i]] && Decision(ds[i].bin, ds[i].bit) == ds[i];
    }
    assert ds[..|ds|] == ds;
    e.Kept();
    e.FinishPass();
  }

  lemma LegalAt(ds: seq<Decision>, i: nat)
    requires LegalRun(ds) && i < |ds|
    ensures LegalDecision(ds[i]) && Legal(ds[i].bin) && ds[i].bit < 2
  {
  }

  /** All bins through arith_decode: what the simple form decodes, on any input. */
  method DecodeAll(d: ArithDecoder, bins: seq<Bin>) returns (ok: bool, bits: seq<nat>)
    requires d.Valid() && AllLegal(bins)
    modifies d
    ensures d.code == old(d.code) && d.ending == old(d.ending) && (!ok ==> d.ending == Cut)
    ensures ok ==> d.Valid() && (bits, d.Coded()) == DecodeRun(old(d.Coded()), bins, d.code)
  {
    hide ArithDecoder.Valid, ArithDecoder.Coded, Run, Read, DecodeRun, ValidCoder, AllLegal;
    ghost var k := d.Coded();
    bits := [];
    RunNothing(k, d.code);
    for i := 0 to |bins|
      invariant d.Valid() && d.code == old(d.code) && d.ending == old(d.ending)
      invariant AllLegal(bins[..i]) && (bits, d.Coded()) == DecodeRun(k, bins[..i], d.code)
    {
      LegalBin(bins, i);
      DecodeRunSnoc(k, bins[..i], bins[i], d.code);
      assert bins[..i + 1] == bins[..i] + [bins[i]];
      var bit;
      ok, bit := d.Decode(bins[i]);
      if !ok {
        return;
      }
      bits := bits + [bit];
    }
    assert bins[..|bins|] == bins;
    ok := true;
  }

  lemma RunNothing(k: Coder, code: seq<byte>)
    requires ValidCoder(k)
    ensures AllLegal([]) && DecodeRun(k, [], code) == ([], k)
  {
  }

  lemma LegalBin(bins: seq<Bin>, i: nat)
    requires AllLegal(bins) && i < |bins|
    ensures Legal(bins[i])
  {
  }

  lemma LegalBins(ds: seq<Decision>)
    requires LegalRun(ds)
    ensures AllLegal(Bins(ds))
  {
    forall i | 0 <= i < |ds|
      ensures Legal(Bins(ds)[i])
    {
      LegalAt(ds, i);
    }
  }

  /** The round trip of the registers: whatever the decisions, what was written before them
      and the marker after them, the decoder gives every bit, and ends with the encoder's
      statistics. */
  method RoundTrip(ds: seq<Decision>, stats: Stats, prior: seq<byte>, m: byte, tail: seq<byte>)
    returns (ok: bool, bits: seq<nat>, sent: Stats, got: Stats)
    requires ValidStats(stats) && LegalRun(ds) && 0 < m < 255
    ensures ok && bits == Bits(ds) && got == sent == Run(Coder(START, stats), ds).stats
  {
    hide *;
    var e := new ArithEncoder(prior, stats);
    EncodeAll(e, ds);
    ghost var code := e.emitted;
    sent := e.stats;
    var input := e.out[|prior|..] + ([255, m] + tail);
    assert input == Stuff(code) + [255, m] + tail;
    UnstuffStuff(code, m, tail);
    var d := new ArithDecoder(input, stats);
    d.Kept();
    LegalBins(ds);
    CodeRoundTrip(stats, ds, code);
    ok, bits := DecodeAll(d, Bins(ds));
    d.Kept();
    got := d.stats;
  }
}
