/** Bit strings, most significant bit first, and the bits of byte strings. */
module BitStreams {
  import opened Powers
  import opened Bytes

  type bit = b: int | 0 <= b < 2

  /** The number with binary digits `s`. */
  function BitVal(s: seq<bit>): (v: nat)
  {
    if s == [] then 0 else 2 * BitVal(s[..|s| - 1]) + s[|s| - 1]
  }

  /** The low `n` bits of `v`. */
  function Word(v: nat, n: nat): (s: seq<bit>)
    ensures |s| == n
  {
    if n == 0 then [] else Word(v / 2, n - 1) + [v % 2]
  }

  /** The bits of a byte string. */
  function Unpack(code: seq<byte>): (s: seq<bit>)
    ensures |s| == 8 * |code|
  {
    if code == [] then [] else Unpack(code[..|code| - 1]) + Word(code[|code| - 1], 8)
  }

  /** The stream continues with zeros after its end. */
  function BitAt(s: seq<bit>, i: nat): bit
  {
    if i < |s| then s[i] else 0
  }

  /** The `n` bits from position `pos` as a number. */
  function Window(s: seq<bit>, pos: nat, n: nat): (v: nat)
    ensures v < Pow2(n)
  {
    if n == 0 then 0 else 2 * Window(s, pos, n - 1) + BitAt(s, pos + n - 1)
  }

  lemma {:induction false} WindowSplit(s: seq<bit>, pos: nat, m: nat, n: nat)
    ensures Window(s, pos, m + n) == Window(s, pos, m) * Pow2(n) + Window(s, pos + m, n)
    decreases n
  {
    if n != 0 {
      WindowSplit(s, pos, m, n - 1);
      MulShuffle(Window(s, pos, m), Pow2(n - 1), 2);
    }
  }

  /** The stream holds the bits `e` at `pos`. */
  ghost predicate Holds(s: seq<bit>, pos: nat, e: seq<bit>)
  {
    pos + |e| <= |s| && forall i :: 0 <= i < |e| ==> s[pos + i] == e[i]
  }

  lemma HoldsSplit(s: seq<bit>, pos: nat, d: seq<bit>, e: seq<bit>)
    ensures Holds(s, pos, d + e) <==> Holds(s, pos, d) && Holds(s, pos + |d|, e)
  {
    if Holds(s, pos, d + e) {
      assert forall i :: 0 <= i < |d| ==> d[i] == (d + e)[i];
      assert forall i :: 0 <= i < |e| ==> e[i] == (d + e)[|d| + i];
    }
    if Holds(s, pos, d) && Holds(s, pos + |d|, e) {
      forall i | 0 <= i < |d + e|
        ensures s[pos + i] == (d + e)[i]
      {
        if i >= |d| {
          assert s[pos + |d| + (i - |d|)] == e[i - |d|];
        }
      }
    }
  }

  /** Reading bits that are there. */
  lemma {:induction false} HoldsWindow(s: seq<bit>, pos: nat, e: seq<bit>, n: nat)
    requires Holds(s, pos, e) && n <= |e|
    ensures Window(s, pos, n) == BitVal(e[..n])
  {
    if n != 0 {
      HoldsWindow(s, pos, e, n - 1);
      assert e[..n][..n - 1] == e[..n - 1];
    }
  }

  lemma {:induction false} WordVal(v: nat, n: nat)
    requires v < Pow2(n)
    ensures BitVal(Word(v, n)) == v
  {
    if n != 0 {
      WordVal(v / 2, n - 1);
      assert Word(v, n)[..n - 1] == Word(v / 2, n - 1);
    }
  }

  lemma UnpackSnoc(code: seq<byte>, b: byte)
    ensures Unpack(code + [b]) == Unpack(code) + Word(b, 8)
  {
    assert (code + [b])[..|code|] == code;
  }

  /** At each byte boundary are the bits of that byte. */
  lemma {:induction false} UnpackHolds(code: seq<byte>, i: nat)
    requires i < |code|
    ensures Holds(Unpack(code), 8 * i, Word(code[i], 8))
    decreases |code|
  {
    hide Word;
    var rest, n := code[..|code| - 1], |code| - 1;
    if i < n {
      UnpackHolds(rest, i);
    }
  }

  lemma UnpackByte(code: seq<byte>, i: nat)
    requires i < |code|
    ensures Window(Unpack(code), 8 * i, 8) == code[i]
  {
    var w := Word(code[i], 8);
    Pow2Small();
    WordVal(code[i], 8);
    UnpackHolds(code, i);
    hide Word, Unpack, Window, BitVal, Pow2, Holds;
    HoldsWindow(Unpack(code), 8 * i, w, 8);
    assert w[..8] == w;
  }

  lemma {:induction false} WordJoin(h: nat, w: nat, m: nat, n: nat)
    requires w < Pow2(n)
    ensures Word(h * Pow2(n) + w, m + n) == Word(h, m) + Word(w, n)
    decreases n
  {
    if n == 0 {
      assert Word(h, m) + [] == Word(h, m);
    } else {
      var v := h * Pow2(n) + w;
      MulShuffle(h, Pow2(n - 1), 2);
      assert v / 2 == h * Pow2(n - 1) + w / 2 && v % 2 == w % 2;
      WordJoin(h, w / 2, m, n - 1);
    }
  }
}
