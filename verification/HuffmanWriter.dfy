/** Writing bits into an entropy-coded segment (jchuff.c): a 24-bit buffer with
    left-justified bits, byte stuffing, and padding with ones. */
module HuffmanWriter {
  import opened Powers
  import opened Bytes
  import opened BitStreams

  const BUFFER: nat := 0x1_0000_0000
  const USED: nat := 0x100_0000

  /** The `n` bits of `v` are at the top of the low 24 bits of the buffer. */
  predicate Justified(buffer: nat, v: nat, n: nat)
  {
    n <= 24 && v < Pow2(n) && buffer < BUFFER && buffer % USED == v * Pow2(24 - n)
  }

  lemma SumTimes(a: nat, b: nat, p: nat)
    ensures (a + b) * p == a * p + b * p
  {
  }

  /** Merging `size` new bits behind those in the buffer. */
  lemma MergeBits(buffer: nat, v: nat, n: nat, code: nat, size: nat)
    requires Justified(buffer, v, n) && n + size <= 24 && code < Pow2(size)
    ensures Justified(buffer + code * Pow2(24 - (n + size)), v * Pow2(size) + code, n + size)
  {
    hide Pow2;
    Pow2Add(size, 24 - (n + size));
    Pow2Add(n, size);
    Pow2Add(n + size, 24 - (n + size));
    assert Pow2(24) == USED by { Pow2Small(); }
    MergeNumbers(v, Pow2(n), code, Pow2(size), Pow2(24 - (n + size)));
    AddLow(buffer, code * Pow2(24 - (n + size)));
  }

  lemma MergeNumbers(v: nat, pn: nat, code: nat, ps: nat, rest: nat)
    requires v < pn && code < ps && pn * ps * rest == USED
    ensures v * (ps * rest) + code * rest == (v * ps + code) * rest < USED
    ensures v * ps + code < pn * ps
  {
    MulShuffle(v, ps, rest);
    SumTimes(v * ps, code, rest);
    SumTimes(v, 1, ps);
    MulLe(v + 1, pn, ps);
    MulLe(v * ps + code + 1, pn * ps, rest);
    SumTimes(v * ps + code, 1, rest);
    assert rest > 0;
  }

  lemma AddLow(buffer: nat, low: nat)
    requires buffer < BUFFER && buffer % USED + low < USED
    ensures (buffer + low) % USED == buffer % USED + low && buffer + low < BUFFER
  {
  }

  /** Moving the top byte out: the byte `c`, and the bits `w` that stay. */
  lemma ShiftOut(buffer: nat, v: nat, n: nat) returns (c: byte, w: nat)
    requires Justified(buffer, v, n) && 8 <= n
    ensures v == c * Pow2(n - 8) + w && w < Pow2(n - 8)
    ensures buffer / 0x1_0000 % 256 == c
    ensures Justified(buffer * 256 % BUFFER, w, n - 8)
  {
    hide Pow2;
    var p, q := Pow2(n - 8), Pow2(24 - n);
    Pow2Add(n - 8, 24 - n);
    Pow2Add(n - 8, 8);
    Pow2Add(24 - n, 8);
    assert Pow2(8) == 256 && Pow2(16) == 0x1_0000 by { Pow2Small(); }
    var top: nat;
    top, w := v / p, v % p;
    SplitTop(v, top, w, p, q);
    c := top;
    TopByte(buffer, c, w * q);
  }

  lemma SplitTop(v: nat, c: nat, w: nat, p: nat, q: nat)
    requires p * q == 0x1_0000 && v == c * p + w && w < p && v < p * 256
    ensures v * q == c * 0x1_0000 + w * q && w * q < 0x1_0000 && c < 256
    ensures w * q * 256 == w * (q * 256)
  {
    SumTimes(c * p, w, q);
    MulShuffle(c, p, q);
    MulLe(w + 1, p, q);
    SumTimes(w, 1, q);
    assert q > 0;
    MulShuffle(w, q, 256);
    if c >= 256 {
      MulLe(256, c, p);
    }
  }

  lemma TopByte(buffer: nat, c: nat, low: nat)
    requires buffer % USED == c * 0x1_0000 + low && low < 0x1_0000 && c < 256
    ensures buffer / 0x1_0000 % 256 == c && buffer * 256 % BUFFER % USED == low * 256
  {
    var hi := buffer / USED;
    RemainderIs(buffer, 0x1_0000, hi * 256 + c, low);
    RemainderIs(buffer * 256, USED, hi * 256 + c, low * 256);
    var n := buffer * 256 / BUFFER;
    assert buffer * 256 % BUFFER == (hi * 256 + c - 256 * n) * USED + low * 256;
    RemainderIs(buffer * 256 % BUFFER, USED, hi * 256 + c - 256 * n, low * 256);
  }

  function Ones(n: nat): (s: seq<bit>)
    ensures |s| == n && forall i :: 0 <= i < n ==> s[i] == 1
  {
    if n == 0 then [] else Ones(n - 1) + [1]
  }

  lemma SevenOnes()
    ensures Word(0x7F, 7) == Ones(7)
  {
    assert Word(0x7F, 7) == [1, 1, 1, 1, 1, 1, 1];
  }

  /** `data` are the bytes of a finished segment: its bits, padded with ones. */
  ghost predicate IsSegment(data: seq<byte>, bits: seq<bit>)
  {
    |bits| <= 8 * |data| < |bits| + 8 && Unpack(data) == bits + Ones(8 * |data| - |bits|)
  }

  /** The written bytes and the held bits are all the bits. */
  ghost predicate Written(emitted: seq<byte>, held: nat, n: nat, bits: seq<bit>)
  {
    Unpack(emitted) + Word(held, n) == bits
  }

  lemma WrittenMore(emitted: seq<byte>, held: nat, n: nat, bits: seq<bit>, code: nat, size: nat)
    requires Written(emitted, held, n, bits) && code < Pow2(size)
    ensures Written(emitted, held * Pow2(size) + code, n + size, bits + Word(code, size))
  {
    WordJoin(held, code, n, size);
    hide Word, Unpack;
    assert Unpack(emitted) + (Word(held, n) + Word(code, size)) == bits + Word(code, size);
  }

  lemma WrittenByte(emitted: seq<byte>, held: nat, n: nat, bits: seq<bit>, c: byte, w: nat)
    requires 8 <= n && Written(emitted, held, n, bits) && held == c * Pow2(n - 8) + w && w < Pow2(n - 8)
    ensures Written(emitted + [c], w, n - 8, bits)
  {
    WordJoin(c, w, 8, n - 8);
    UnpackSnoc(emitted, c);
    hide Word, Unpack;
    assert Unpack(emitted) + (Word(c, 8) + Word(w, n - 8)) == (Unpack(emitted) + Word(c, 8)) + Word(w, n - 8);
  }

  lemma WrittenAll(emitted: seq<byte>, held: nat, n: nat, bits: seq<bit>)
    requires n <= 7 && Written(emitted, held, n, bits + Ones(7))
    ensures IsSegment(emitted, bits)
  {
    var k := 8 * |emitted| - |bits|;
    var all := bits + Ones(7);
    assert Unpack(emitted) == all[..8 * |emitted|] == bits + Ones(k);
  }

  class BitWriter {
    var putBuffer: nat
    var putBits: nat
    var out: seq<byte>          // bytes handed to the destination

    ghost var before: seq<byte>   // what `out` held when the segment began
    ghost var emitted: seq<byte>  // bytes of the segment, without stuffing
    ghost var held: nat           // value of the bits in the buffer
    ghost var bits: seq<bit>      // all bits of the segment

    /** At most seven bits are held between calls. */
    ghost predicate Valid()
      reads this
    {
      && putBits <= 7 && Justified(putBuffer, held, putBits) && Written(emitted, held, putBits, bits)
      && out == before + Stuff(emitted)
    }

    constructor (prior: seq<byte>)
      ensures Valid() && out == before == prior && bits == []
    {
      putBuffer, putBits, out, before, emitted, held, bits := 0, 0, prior, prior, [], 0, [];
      new;
      assert Pow2(0) == 1;
    }

    method EmitByte(val: byte)
      modifies `out
      ensures out == old(out) + [val]
    {
      out := out + [val];
    }

    /** One byte of the segment, stuffed. */
    method EmitData(c: byte)
      requires out == before + Stuff(emitted)
      modifies `out, `emitted
      ensures out == before + Stuff(emitted) && emitted == old(emitted) + [c]
    {
      hide Stuff;
      EmitByte(c);
      if c == 0xFF {
        EmitByte(0);
      }
      StuffSnoc(emitted, c);
      emitted := emitted + [c];
    }

    /** emit_bits: refused when the size is zero, as for a symbol without code. */
    method EmitBits(code: int, size: nat) returns (ok: bool)
      requires Valid() && size <= 16
      modifies `putBuffer, `putBits, `out, `emitted, `held, `bits
      ensures Valid() && (ok <==> size != 0)
      ensures bits == old(bits) + if ok then Word(code % Pow2(size), size) else []
    {
      hide Justified, Written, Stuff, Pow2, Word;
      if size == 0 {
        return false;
      }
      var put := code % Pow2(size);
      MergeBits(putBuffer, held, putBits, put, size);
      WrittenMore(emitted, held, putBits, bits, put, size);
      putBuffer := putBuffer + put * Pow2(24 - (putBits + size));
      putBits := putBits + size;
      held := held * Pow2(size) + put;
      bits := bits + Word(put, size);
      while putBits >= 8
        invariant putBits <= 24 && Justified(putBuffer, held, putBits)
        invariant Written(emitted, held, putBits, bits) && out == before + Stuff(emitted)
        invariant bits == old(bits) + Word(put, size)
      {
        ghost var top, rest := ShiftOut(putBuffer, held, putBits);
        WrittenByte(emitted, held, putBits, bits, top, rest);
        var c := putBuffer / 0x1_0000 % 256;
        EmitData(c);
        putBuffer := putBuffer * 256 % BUFFER;
        putBits := putBits - 8;
        held := rest;
      }
      ok := true;
    }

    /** flush_bits: fill the last byte with ones and empty the buffer. */
    method FlushBits()
      requires Valid()
      modifies `putBuffer, `putBits, `out, `emitted, `held, `bits
      ensures IsSegment(emitted, old(bits)) && out == before + Stuff(emitted)
      ensures putBuffer == putBits == 0
    {
      hide Justified, Written, Stuff, Word, Ones, IsSegment;
      SevenOnes();
      assert Pow2(7) == 128;
      var _ := EmitBits(0x7F, 7);
      WrittenAll(emitted, held, putBits, old(bits));
      putBuffer := 0;
      putBits := 0;
    }

    /** Finish the segment, write a restart marker and start the next segment. */
    method EmitRestart(restartNum: nat) returns (ghost data: seq<byte>)
      requires Valid() && restartNum < 8
      modifies this
      ensures IsSegment(data, old(bits))
      ensures out == old(before) + Stuff(data) + [0xFF, 0xD0 + restartNum]
      ensures Valid() && before == out && bits == []
    {
      FlushBits();
      data := emitted;
      EmitByte(0xFF);
      EmitByte(0xD0 + restartNum);
      before, emitted, held, bits := out, [], 0, [];
      assert Pow2(0) == 1;
    }
  }
}
