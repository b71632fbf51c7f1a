/** Pass control of the compressor (jcmaster.c) under the loop of jpeg_finish_compress
    (jcapimin.c): which passes are made, over which scan, and when headers are written. */
module PassMachine {
  /** Of a scan's parameters, those the pass control looks at. */
  datatype Params = Params(ss: nat, ah: nat)

  datatype PassType = MainPass | HuffOptPass | OutputPass

  /** What happens to the file: a statistics pass over a scan, the headers, and the pass
      that writes a scan. */
  datatype Event = Gather(scan: nat) | FrameHeader | ScanHeader(scan: nat) | Output(scan: nat)

  /** jinit_c_master_control: whether Huffman tables are optimized. */
  function Optimizes(asked: bool, arith: bool, progressive: bool, blockSize: nat): (opt: bool)
    ensures arith && !asked ==> !opt
    ensures !arith && progressive ==> opt
  {
    asked || (!arith && (progressive || (1 < blockSize < 8)))
  }

  /** Huffman tables are used by all scans but DC refinements. */
  predicate NeedsTables(s: Params)
  {
    s.ss != 0 || s.ah == 0
  }

  /** A scan is preceded by a statistics pass, if tables are optimized and the scan uses any;
      with a main pass the first scan always is. */
  predicate Gathered(scans: seq<Params>, opt: bool, main: bool, k: nat)
    requires k < |scans|
  {
    opt && (NeedsTables(scans[k]) || (main && k == 0))
  }

  /** The frame header comes before the first scan. */
  function Headers(k: nat): seq<Event>
  {
    (if k == 0 then [FrameHeader] else []) + [ScanHeader(k)]
  }

  /** What scan `k` comes to. */
  function Passes(scans: seq<Params>, opt: bool, main: bool, k: nat): seq<Event>
    requires k < |scans|
  {
    (if Gathered(scans, opt, main, k) then [Gather(k)] else []) + Headers(k) + [Output(k)]
  }

  /** What the first `n` scans come to. */
  function Expected(scans: seq<Params>, opt: bool, main: bool, n: nat): seq<Event>
    requires n <= |scans|
  {
    if n == 0 then []
    else Expected(scans, opt, main, n - 1) + Passes(scans, opt, main, n - 1)
  }

  class Master {
    const scans: seq<Params>
    const opt: bool              // optimize_coding
    const arithmetic: bool       // arith_code
    const main: bool             // the first pass takes in data
    const totalPasses: nat
    var passType: PassType
    var passNumber: nat
    var scanNumber: nat
    var isLastPass: bool
    var callPassStartup: bool
    var current: nat             // the scan whose parameters are set up
    var gathering: bool          // the entropy coder was started to gather statistics
    var log: seq<Event>

    /** Between passes, `passNumber` of them done. */
    ghost predicate Between()
      reads this
    {
      && scans != [] && totalPasses == (if opt then 2 * |scans| else |scans|) && scanNumber <= |scans|
      && (isLastPass <==> passNumber == totalPasses)
      && passNumber <= totalPasses
      && (passType == MainPass ==> main && passNumber == 0)
      && (main && passNumber == 0 ==> passType == MainPass)
      && (passType == HuffOptPass ==> opt)
      && if opt && passType == OutputPass then
           && scanNumber < |scans| && passNumber == 2 * scanNumber + 1 && current == scanNumber
           && Gathered(scans, opt, main, scanNumber)
           && log == Expected(scans, opt, main, scanNumber) + [Gather(scanNumber)]
         else
           && passNumber == (if opt then 2 * scanNumber else scanNumber)
           && log == Expected(scans, opt, main, scanNumber)
    }

    /** In a pass over the scan whose parameters are set up. */
    ghost predicate InPass()
      reads this
    {
      && scans != [] && totalPasses == (if opt then 2 * |scans| else |scans|) && scanNumber < |scans|
      && (isLastPass <==> passNumber + 1 == totalPasses)
      && current == scanNumber && passNumber < totalPasses
      && (passType == MainPass <==> main && passNumber == 0)
      && (passType == MainPass ==> gathering == opt)
      && (passType == OutputPass ==> !gathering)
      && (passType == HuffOptPass ==> gathering)
      && (gathering ==> opt && Gathered(scans, opt, main, scanNumber))
      && (callPassStartup ==> passType == MainPass && !gathering)
      && passNumber == if !opt then scanNumber else if gathering then 2 * scanNumber else 2 * scanNumber + 1
    }

    /** Before the data of the pass, which is written after the headers. */
    ghost predicate Started()
      reads this
    {
      InPass() && log == Expected(scans, opt, main, scanNumber) +
        if gathering then []
        else (if Gathered(scans, opt, main, scanNumber) then [Gather(scanNumber)] else [])
             + if callPassStartup then [] else Headers(scanNumber)
    }

    /** After it. */
    ghost predicate Ran()
      reads this
    {
      && InPass() && !callPassStartup
      && log == if gathering then Expected(scans, opt, main, scanNumber) + [Gather(scanNumber)]
                else Expected(scans, opt, main, scanNumber + 1)
    }

    /** jinit_c_master_control, for compression or for transcoding: asking for optimized
        tables switches arithmetic coding off, and Huffman coding in progressive mode or
        with small blocks switches optimization on. */
    constructor (scans: seq<Params>, asked: bool, arith: bool, progressive: bool, blockSize: nat, transcodeOnly: bool)
      requires scans != []
      ensures Between() && passNumber == 0 && log == []
      ensures this.scans == scans && opt == Optimizes(asked, arith, progressive, blockSize) && main == !transcodeOnly
      ensures arithmetic == (arith && !asked) && (arithmetic ==> !opt)
    {
      var optimize := asked;
      arithmetic := arith;
      if asked {
        arithmetic := false;
      } else if !arith && (progressive || (blockSize > 1 && blockSize < 8)) {
        optimize := true;
      }
      this.scans, opt, main := scans, optimize, !transcodeOnly;
      passType := if transcodeOnly then if optimize then HuffOptPass else OutputPass else MainPass;
      scanNumber, passNumber, isLastPass, callPassStartup := 0, 0, false, false;
      totalPasses := if optimize then |scans| * 2 else |scans|;
      current, gathering, log := 0, false, [];
    }

    method WriteHeaders(frame: bool)
      modifies `log
      ensures log == old(log) + (if frame then [FrameHeader] else []) + [ScanHeader(scanNumber)]
    {
      if frame {
        log := log + [FrameHeader];
      }
      log := log + [ScanHeader(scanNumber)];
    }

    /** prepare_for_pass. */
    method PrepareForPass()
      requires Between() && passNumber < totalPasses
      modifies this
      ensures Started()
      ensures passNumber == old(passNumber) || passNumber == old(passNumber) + 1
    {
      hide Expected, Passes;
      var pass := passType;
      if pass == MainPass {
        current := scanNumber;
        gathering := opt;
        callPassStartup := !opt;
      } else {
        if pass == HuffOptPass {
          current := scanNumber;
          if scans[current].ss != 0 || scans[current].ah == 0 {
            gathering := true;
            callPassStartup := false;
          } else {
            passType := OutputPass;
            passNumber := passNumber + 1;
            pass := OutputPass;
          }
        }
        if pass == OutputPass {
          if !opt {
            current := scanNumber;
          }
          gathering := false;
          WriteHeaders(scanNumber == 0);
          callPassStartup := false;
        }
      }
      isLastPass := passNumber == totalPasses - 1;
    }

    /** pass_startup, at the first scanline. */
    method PassStartup()
      requires Started() && callPassStartup
      modifies `callPassStartup, `log
      ensures Started() && !callPassStartup
    {
      callPassStartup := false;
      WriteHeaders(true);
    }

    /** The data of a pass. */
    method RunPass()
      requires Started()
      modifies `callPassStartup, `log
      ensures Ran()
    {
      if callPassStartup {
        PassStartup();
      }
      log := log + [if gathering then Gather(current) else Output(current)];
    }

    /** finish_pass_master. */
    method FinishPass()
      requires Ran()
      modifies this
      ensures Between() && passNumber == old(passNumber) + 1
    {
      match passType {
        case MainPass =>
          passType := OutputPass;
          if !opt {
            scanNumber := scanNumber + 1;
          }
        case HuffOptPass =>
          passType := OutputPass;
        case OutputPass =>
          if opt {
            passType := HuffOptPass;
          }
          scanNumber := scanNumber + 1;
      }
      passNumber := passNumber + 1;
    }

    /** jpeg_start_compress and jpeg_finish_compress, or jpeg_write_coefficients and
        jpeg_finish_compress: all passes. */
    method Compress()
      requires Between() && passNumber == 0
      modifies this
      ensures passNumber == totalPasses && log == Expected(scans, opt, main, |scans|)
    {
      if main {
        PrepareForPass();
        RunPass();
        FinishPass();
      }
      while !isLastPass
        invariant Between()
        decreases totalPasses - passNumber
      {
        PrepareForPass();
        RunPass();
        FinishPass();
      }
    }
  }

  // ------------------------------------------------------------ what that amounts to

  function Outputs(log: seq<Event>): seq<nat>
  {
    if log == [] then []
    else Outputs(log[..|log| - 1]) + if log[|log| - 1].Output? then [log[|log| - 1].scan] else []
  }

  lemma {:induction false} OutputsAppend(a: seq<Event>, b: seq<Event>)
    ensures Outputs(a + b) == Outputs(a) + Outputs(b)
    decreases |b|
  {
    if b == [] {
      assert a + b == a;
    } else {
      OutputsAppend(a, b[..|b| - 1]);
      assert (a + b)[..|a + b| - 1] == a + b[..|b| - 1];
    }
  }

  lemma OutputsOf(scans: seq<Params>, opt: bool, main: bool, k: nat)
    requires k < |scans|
    ensures Outputs(Passes(scans, opt, main, k)) == [k]
  {
    hide Outputs;
    var front := (if Gathered(scans, opt, main, k) then [Gather(k)] else []) + Headers(k);
    OneOutput(front, k);
  }

  lemma OneOutput(front: seq<Event>, k: nat)
    requires forall i :: 0 <= i < |front| ==> !front[i].Output?
    ensures Outputs(front + [Output(k)]) == [k]
  {
    NoOutputs(front);
    assert (front + [Output(k)])[..|front|] == front;
  }

  lemma NoOutputs(log: seq<Event>)
    requires forall i :: 0 <= i < |log| ==> !log[i].Output?
    ensures Outputs(log) == []
  {
  }

  /** Each scan is written exactly once, in order. */
  lemma {:induction false} EachOnce(scans: seq<Params>, opt: bool, main: bool, n: nat)
    requires n <= |scans|
    ensures Outputs(Expected(scans, opt, main, n)) == seq(n, i => i)
    decreases n
  {
    hide Passes;
    if n > 0 {
      EachOnce(scans, opt, main, n - 1);
      OutputsAppend(Expected(scans, opt, main, n - 1), Passes(scans, opt, main, n - 1));
      OutputsOf(scans, opt, main, n - 1);
    }
  }

  lemma FrameHeadersOf(scans: seq<Params>, opt: bool, main: bool, k: nat)
    requires k < |scans|
    ensures multiset(Passes(scans, opt, main, k))[FrameHeader] == if k == 0 then 1 else 0
    ensures k == 0 ==> var log := Passes(scans, opt, main, k);
              log[0] == FrameHeader || (log[0] == Gather(0) && log[1] == FrameHeader)
  {
  }

  /** The frame header is written exactly once, and nothing but a statistics pass comes
      before it. */
  lemma {:induction false} OneFrameHeader(scans: seq<Params>, opt: bool, main: bool, n: nat)
    requires 0 < n <= |scans|
    ensures var log := Expected(scans, opt, main, n);
            && multiset(log)[FrameHeader] == 1 && |log| >= 2
            && (log[0] == FrameHeader || (log[0] == Gather(0) && log[1] == FrameHeader))
    decreases n
  {
    hide Passes;
    var front, log := Expected(scans, opt, main, n - 1), Expected(scans, opt, main, n);
    FrameHeadersOf(scans, opt, main, n - 1);
    assert log == front + Passes(scans, opt, main, n - 1);
    if n == 1 {
      assert log == Passes(scans, opt, main, 0);
      TwoAtLeast(scans, opt, main, 0);
    } else {
      OneFrameHeader(scans, opt, main, n - 1);
    }
  }

  lemma TwoAtLeast(scans: seq<Params>, opt: bool, main: bool, k: nat)
    requires k < |scans|
    ensures |Passes(scans, opt, main, k)| >= 2
  {
  }

  /** A statistics pass is made of exactly the scans that are to be optimized, and nothing
      but headers lies between it and the output of the scan. */
  lemma {:induction false} GatherBefore(scans: seq<Params>, opt: bool, main: bool, n: nat, k: nat)
    requires k < n <= |scans|
    ensures var log := Expected(scans, opt, main, n);
            && (Gather(k) in log <==> Gathered(scans, opt, main, k))
            && (Gathered(scans, opt, main, k) ==>
                  Expected(scans, opt, main, k) + [Gather(k)] + Headers(k) + [Output(k)] <= log)
    decreases n
  {
    var front := Expected(scans, opt, main, n - 1);
    if k == n - 1 {
      NotYet(scans, opt, main, k, k);
    } else {
      GatherBefore(scans, opt, main, n - 1, k);
    }
  }

  lemma {:induction false} NotYet(scans: seq<Params>, opt: bool, main: bool, n: nat, k: nat)
    requires n <= k && n <= |scans|
    ensures Gather(k) !in Expected(scans, opt, main, n)
    decreases n
  {
    if n > 0 {
      NotYet(scans, opt, main, n - 1, k);
    }
  }
}
