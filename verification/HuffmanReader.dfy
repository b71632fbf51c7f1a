/** Reading bits and Huffman symbols from an entropy-coded segment (jdhuff.c): a
    32-bit buffer, eight-bit lookahead and the bit-serial fallback. */
module HuffmanReader {
  import opened Powers
  import opened Bytes
  import opened BitStreams
  import opened HuffmanCode
  import opened HuffmanTables

  const MIN_GET_BITS: nat := 25
  const BIT_BUF: nat := 0x1_0000_0000

  /** The low `left` bits of `buffer` are the bits of the stream at `at`; all the
      stream before `at + left` has been loaded. */
  ghost predicate InSync(data: seq<byte>, ending: Ending, buffer: nat, left: nat, src: seq<byte>, pos: nat,
                         unread: byte, at: nat)
  {
    && pos <= |src| && left <= 32 && buffer < BIT_BUF
    && buffer % Pow2(left) == Window(Unpack(data), at, left)
    && (unread == 0 ==> && (at + left) % 8 == 0 && (at + left) / 8 <= |data|
                        && Payload(src[pos..]) == data[(at + left) / 8..] && End(src[pos..]) == ending)
    && (unread != 0 ==> 8 * |data| <= at + left && ending == At(unread, src[pos..]))
  }

  lemma ModMod(x: nat, n: nat, r: nat, p: nat, q: nat, m: nat)
    requires 0 < p && q * p == m && x == n * m + r
    ensures r % p == x % p
  {
    MulShuffle(n, q, p);
    ModAdd(r, n * q, p);
  }

  lemma ModAdd(r: nat, k: nat, p: nat)
    requires 0 < p
    ensures (k * p + r) % p == r % p
  {
    var b := r / p;
    SumTimes(k, b, p);
    RemainderIs(k * p + r, p, k + b, r % p);
  }

  lemma SumTimes(a: nat, b: nat, p: nat)
    ensures (a + b) * p == a * p + b * p
  {
  }

  /** Another byte at the low end of the buffer. */
  lemma LoadByte(data: seq<byte>, buffer: nat, left: nat, at: nat, c: byte)
    requires left <= 24 && buffer % Pow2(left) == Window(Unpack(data), at, left)
    requires Window(Unpack(data), at + left, 8) == c
    ensures (buffer * 256 + c) % BIT_BUF % Pow2(left + 8) == Window(Unpack(data), at, left + 8)
  {
    hide Window, Unpack, Pow2;
    WindowSplit(Unpack(data), at, left, 8);
    RoomForByte(left);
    var x := buffer * 256 + c;
    ModMod(x, x / BIT_BUF, x % BIT_BUF, Pow2(left + 8), Pow2(24 - left), BIT_BUF);
    ShiftMod(buffer, Pow2(left), c);
  }

  lemma RoomForByte(left: nat)
    requires left <= 24
    ensures Pow2(left + 8) == Pow2(left) * 256 && Pow2(8) == 256
    ensures Pow2(24 - left) * Pow2(left + 8) == BIT_BUF
  {
    Pow2Small();
    Pow2Add(left, 8);
    Pow2Add(24 - left, left + 8);
    Pow2Add(16, 16);
  }

  lemma ShiftMod(x: nat, p: nat, c: nat)
    requires 0 < p && c < 256
    ensures (x * 256 + c) % (p * 256) == x % p * 256 + c
  {
    var q, r := x / p, x % p;
    MulShuffle(q, p, 256);
    RemainderIs(x * 256 + c, p * 256, q, r * 256 + c);
  }

  /** Taking `n` bits from the high end of what is left. */
  lemma TakeBits(s: seq<bit>, buffer: nat, left: nat, at: nat, n: nat)
    requires n <= left && buffer % Pow2(left) == Window(s, at, left)
    ensures buffer / Pow2(left - n) % Pow2(n) == Window(s, at, n)
    ensures buffer % Pow2(left - n) == Window(s, at + n, left - n)
  {
    hide Window, Pow2;
    WindowSplit(s, at, n, left - n);
    Pow2Add(n, left - n);
    TakeHigh(buffer, buffer / Pow2(left), Pow2(left), Window(s, at, n), Pow2(n),
             Window(s, at + n, left - n), Pow2(left - n));
  }

  lemma TakeHigh(x: nat, k: nat, big: nat, w: nat, pn: nat, rest: nat, p: nat)
    requires x == k * big + (w * p + rest) && big == pn * p && w < pn && rest < p
    ensures x / p % pn == w && x % p == rest
  {
    MulShuffle(k, pn, p);
    SumTimes(k * pn, w, p);
    RemainderIs(x, p, k * pn + w, rest);
    RemainderIs(k * pn + w, pn, k, w);
  }

  lemma {:induction false} WindowBeyond(s: seq<bit>, at: nat, n: nat)
    requires |s| <= at
    ensures Window(s, at, n) == 0
  {
    if n != 0 {
      WindowBeyond(s, at, n - 1);
    }
  }

  lemma ScaleMod(x: nat, p: nat, q: nat)
    requires 0 < p && 0 < q
    ensures 0 < p * q && x * q % (p * q) == x % p * q
  {
    MulLt(0, p, q);
    MulLt(x % p, p, q);
    MulShuffle(x / p, p, q);
    SumTimes(x / p * p, x % p, q);
    RemainderIs(x * q, p * q, x / p, x % p * q);
  }

  /** Dummy zeros after the end of the segment. */
  lemma PadZeros(s: seq<bit>, buffer: nat, left: nat, at: nat)
    requires left <= MIN_GET_BITS && |s| <= at + left && buffer % Pow2(left) == Window(s, at, left)
    ensures buffer * Pow2(MIN_GET_BITS - left) % BIT_BUF % Pow2(MIN_GET_BITS) == Window(s, at, MIN_GET_BITS)
  {
    hide Window;
    var q := Pow2(MIN_GET_BITS - left);
    WindowSplit(s, at, left, MIN_GET_BITS - left);
    WindowBeyond(s, at + left, MIN_GET_BITS - left);
    Pow2Add(left, MIN_GET_BITS - left);
    ScaleMod(buffer, Pow2(left), q);
    BufferSize();
    var x := buffer * q;
    ModMod(x, x / BIT_BUF, x % BIT_BUF, Pow2(MIN_GET_BITS), 128, BIT_BUF);
  }

  lemma BufferSize()
    ensures 128 * Pow2(MIN_GET_BITS) == BIT_BUF
  {
    Pow2Small();
    Pow2Add(24, 1);
  }

  class BitReader {
    var buffer: nat        // get_buffer
    var left: nat          // bits_left
    var src: seq<byte>
    var pos: nat
    var supplied: nat      // how much of the input there is so far
    var unread: byte       // marker met in the input, 0 if none
    var insufficient: bool // zeros have been made up in this segment

    ghost var data: seq<byte>   // all data bytes of the segment
    ghost var ending: Ending    // and what follows them
    ghost var at: nat           // bits taken so far

    ghost predicate Valid()
      reads this
    {
      && InSync(data, ending, buffer, left, src, pos, unread, at) && pos <= supplied <= |src|
      && (!insufficient ==> at + left <= 8 * |data|)
    }

    /** Start of a segment. */
    constructor (input: seq<byte>)
      ensures Valid() && at == 0 && !insufficient && src == input && pos == 0 && supplied == 0
      ensures data == Payload(input) && ending == End(input)
    {
      buffer, left, src, pos, supplied, unread, insufficient := 0, 0, input, 0, 0, 0, false;
      data, ending, at := Payload(input), End(input), 0;
      new;
      assert input[0..] == input && data[0..] == data && Pow2(0) == 1;
    }

    /** The data source comes up with more input. */
    method Supply(more: nat)
      requires Valid() && supplied + more <= |src|
      modifies `supplied
      ensures Valid() && supplied == old(supplied) + more
    {
      supplied := supplied + more;
    }

    /** More input is needed to go on. */
    ghost predicate Starved()
      reads `supplied, `src, `ending
    {
      supplied < |src| || ending == Cut
    }

    ghost predicate Stopped()
      reads `supplied, `src, `ending, `unread
    {
      Starved() && unread == 0
    }

    /** jpeg_fill_bit_buffer; not `ok` means suspension, with nothing changed. */
    method FillBitBuffer(nbits: nat) returns (ok: bool)
      requires Valid() && nbits <= MIN_GET_BITS
      modifies `buffer, `left, `pos, `unread, `insufficient
      ensures Valid() && (ok ==> nbits <= left)
      ensures !ok ==> Starved() && buffer == old(buffer) && left == old(left) && pos == old(pos)
      ensures insufficient ==> old(insufficient) || (0 < nbits && 8 * |data| < at + nbits)
      ensures unread == 0 ==> old(unread) == 0 && insufficient == old(insufficient)
      ensures !ok ==> unread == 0
    {
      hide InSync, Fetch, Payload, End, Unpack, Window, Pow2;
      var b: nat, l: nat, p: nat, marker: byte := buffer, left, pos, unread;
      SyncBounds(data, ending, b, l, src, p, marker, at, insufficient);
      while marker == 0 && l < MIN_GET_BITS
        invariant InSync(data, ending, b, l, src, p, marker, at) && p <= supplied && l <= 32
        invariant !insufficient ==> at + l <= 8 * |data|
        decreases marker == 0, MIN_GET_BITS - l
        modifies {}
      {
        var item := ReadItem(src, supplied, p);
        SyncItem(data, ending, b, l, src, p, at);
        if item == Exhausted {
          return false;
        }
        p := p + item.used;
        match item {
          case Data(c, _) =>
            b, l := (b * 256 + c) % BIT_BUF, l + 8;
          case Marker(m, _) =>
            marker := m;
        }
        SyncBounds(data, ending, b, l, src, p, marker, at, insufficient);
      }
      SyncBounds(data, ending, b, l, src, p, marker, at, insufficient);
      unread := marker;
      if marker != 0 && nbits > l {
        insufficient := true;
        SyncZeros(data, ending, b, l, src, p, marker, at);
        b, l := b * Pow2(MIN_GET_BITS - l) % BIT_BUF, MIN_GET_BITS;
      }
      buffer, left, pos, ok := b, l, p, true;
    }

    /** CHECK_BIT_BUFFER. */
    method CheckBitBuffer(nbits: nat) returns (ok: bool)
      requires Valid() && nbits <= MIN_GET_BITS
      modifies `buffer, `left, `pos, `unread, `insufficient
      ensures Valid() && (ok ==> nbits <= left) && (!ok ==> Starved())
      ensures insufficient ==> old(insufficient) || (0 < nbits && 8 * |data| < at + nbits)
      ensures unread == 0 ==> old(unread) == 0 && insufficient == old(insufficient)
      ensures !ok ==> unread == 0
    {
      ok := true;
      if left < nbits {
        ok := FillBitBuffer(nbits);
      }
    }

    /** PEEK_BITS: the next bits, which stay in the buffer. */
    method PeekBits(nbits: nat) returns (v: nat)
      requires Valid() && nbits <= left
      ensures v == Window(Unpack(data), at, nbits)
    {
      SyncTake(data, ending, buffer, left, src, pos, unread, at, nbits);
      v := buffer / Pow2(left - nbits) % Pow2(nbits);
    }

    /** DROP_BITS. */
    method DropBits(nbits: nat)
      requires Valid() && nbits <= left
      modifies `left, `at
      ensures Valid() && left == old(left) - nbits && at == old(at) + nbits
    {
      SyncTake(data, ending, buffer, left, src, pos, unread, at, nbits);
      left, at := left - nbits, at + nbits;
    }

    /** GET_BITS. */
    method GetBits(nbits: nat) returns (v: nat)
      requires Valid() && nbits <= left
      modifies `left, `at
      ensures Valid() && left == old(left) - nbits && at == old(at) + nbits
      ensures v == Window(Unpack(data), old(at), nbits)
    {
      v := PeekBits(nbits);
      DropBits(nbits);
    }

    /** Go back to a saved state; the marker that was met stays known. */
    method Restore(b: nat, l: nat, p: nat, ghost a: nat)
      requires InSync(data, ending, b, l, src, p, unread, a) && p <= supplied <= |src|
      requires !insufficient ==> a + l <= 8 * |data|
      modifies `buffer, `left, `pos, `at
      ensures Valid() && at == a
    {
      buffer, left, pos, at := b, l, p, a;
    }

    /** process_restart: drop what is left in the buffer, read the restart marker and
        start the next segment.  When more input is needed, what was dropped stays
        dropped, and data bytes skipped on the way to the marker stay skipped.
        Whole bytes left in the buffer count as discarded. */
    method ProcessRestart(restartNum: nat) returns (r: RestartRead, discarded: nat)
      requires Valid() && restartNum < 8
      modifies this
      ensures src == old(src) && supplied == old(supplied) && pos <= |src|
      ensures r.Found? ==> && Valid() && at == 0 && !insufficient && old(ending) == At(0xD0 + restartNum, src[pos..])
                           && data == Payload(src[pos..]) && ending == End(src[pos..])
      ensures r.Waiting? ==> Valid() && data == old(data) && ending == old(ending) && Starved()
      ensures r.Waiting? ==> insufficient == old(insufficient)
      ensures r.Unexpected? ==> old(ending).At? && old(ending).code != 0xD0 + restartNum
      ensures r.Found? && !old(insufficient) && 8 * |old(data)| < old(at) + 8 ==> discarded == 0
    {
      hide Payload, End, Window, Unpack, StillAhead;
      SyncMarker(data, ending, buffer, left, src, pos, unread, at);
      discarded := left / 8;
      ghost var start, gone := pos, at + left;
      left := 0;
      var p, marker, skipped;
      r, p, marker, skipped := ReadRestartMarker(src, supplied, pos, unread, restartNum);
      discarded := discarded + skipped;
      pos, unread := p, marker;
      match r {
        case Found =>
          unread, insufficient := 0, false;
          data, ending, at := Payload(src[pos..]), End(src[pos..]), 0;
          EmptyBuffer(data, buffer);
          assert data[0..] == data;
        case Waiting =>
          at := SyncSkipped(data, ending, buffer, src, start, pos, gone);
        case Unexpected =>
      }
    }

    /** jpeg_huff_decode (Figure F.16), when the code has at least `minBits` bits. */
    method HuffDecodeSlow(t: Table, d: DTable, minBits: nat) returns (ok: bool, sym: nat)
      requires Valid() && WellFormed(t) && Upto(t.bits, 16) <= 256 && DecodesTable(t, d)
      requires 0 < minBits <= 16
      requires ScanLen(t.bits, Unpack(data), at, 1) == ScanLen(t.bits, Unpack(data), at, minBits)
      modifies `buffer, `left, `pos, `unread, `insufficient, `at
      ensures Valid() && (!ok ==> Starved())
      ensures ok ==> (sym, at) == Decode(t, Unpack(data), old(at))
      ensures old(at) <= at && (ok ==> old(at) < at)
      ensures ok && insufficient ==> old(insufficient) || 8 * |data| < at
      ensures unread == 0 ==> old(unread) == 0 && insufficient == old(insufficient)
      ensures !ok ==> unread == 0
    {
      hide BitReader.Valid, DecodesTable, Upto, Next, Window, Unpack, ScanLen, Decode;
      ghost var s, start := Unpack(data), at;
      var l, code := minBits, 0;
      ok := CheckBitBuffer(l);
      sym := 0;
      if !ok {
        return;
      }
      code := GetBits(l);
      LimitStep(t, d, s, start, l);
      while code > d.maxcode[l]
        invariant Valid() && Unpack(data) == s && at == start + l && 0 < l <= 17
        invariant code == Window(s, start, l) && ScanLen(t.bits, s, start, 1) == ScanLen(t.bits, s, start, l)
        invariant ending == old(ending) && (insufficient ==> old(insufficient) || 8 * |data| < at)
        invariant unread == 0 ==> old(unread) == 0 && insufficient == old(insufficient)
        decreases 17 - l
      {
        LimitStep(t, d, s, start, l);
        ok := CheckBitBuffer(1);
        if !ok {
          return;
        }
        var bit := GetBits(1);
        code := code * 2 + bit;
        l := l + 1;
      }
      LimitFound(t, d, s, start, l);
      if l > 16 {
        return true, 0;
      }
      sym := t.vals[code + d.valoffset[l]];
    }

    /** HUFF_DECODE: by lookahead, or bit by bit from nine bits on, or near the
        end of the segment from one bit on. */
    method HuffDecode(t: Table, d: DTable) returns (ok: bool, sym: nat)
      requires Valid() && WellFormed(t) && Upto(t.bits, 16) <= 256 && DecodesTable(t, d)
      modifies `buffer, `left, `pos, `unread, `insufficient, `at
      ensures Valid() && (!ok ==> Starved())
      ensures ok ==> (sym, at) == Decode(t, Unpack(data), old(at))
      ensures old(at) <= at && (ok ==> old(at) < at)
      ensures ok && insufficient ==> old(insufficient) || 8 * |data| < at
      ensures unread == 0 ==> old(unread) == 0 && insufficient == old(insufficient)
      ensures !ok ==> unread == 0
    {
      hide BitReader.Valid, DecodesTable, Upto, Window, Unpack, ScanLen, Decode;
      ok, sym := true, 0;
      if left < HUFF_LOOKAHEAD {
        ok := FillBitBuffer(0);
        if !ok {
          return;
        }
        if left < HUFF_LOOKAHEAD {
          ok, sym := HuffDecodeSlow(t, d, 1);
          return;
        }
      }
      var look := PeekBits(HUFF_LOOKAHEAD);
      LookFound(t, d, Unpack(data), at);
      var nb := d.lookNbits[look];
      if nb != 0 {
        DropBits(nb);
        sym := d.lookSym[look];
      } else {
        ok, sym := HuffDecodeSlow(t, d, HUFF_LOOKAHEAD + 1);
      }
    }
  }

  /** The lookahead table agrees with bit-serial decoding on every stream. */
  lemma LookFound(t: Table, d: DTable, s: seq<bit>, at: nat)
    requires WellFormed(t) && Upto(t.bits, 16) <= 256 && DecodesTable(t, d)
    ensures |d.lookNbits| == |d.lookSym| == 256 && Window(s, at, 8) < 256
    ensures var look := Window(s, at, 8); var nb := d.lookNbits[look];
      if nb != 0 then nb <= 8 && Decode(t, s, at) == (d.lookSym[look], at + nb)
      else ScanLen(t.bits, s, at, 1) == ScanLen(t.bits, s, at, 9)
  {
    hide LimitsUpto, Upto, Next, Window, Word;
    Pow2Small();
    var v := Window(s, at, 8);
    WordWindow(v);
    SameScan(t.bits, s, at, Word(v, 8), 0, 1);
    assert LookEntry(t, d.lookNbits, d.lookSym, v);
    var l := LookLen(t, v);
    if l <= 8 {
      SameWindow(s, at, Word(v, 8), 0, 8, l);
      DecodeAt(t, s, at, l);
    }
  }

  /** Streams with the same next eight bits are scanned alike for eight bits. */
  lemma {:induction false} SameScan(b: seq<nat>, s: seq<bit>, pos: nat, r: seq<bit>, q: nat, l: nat)
    requires |b| == 17 && 0 < l <= 9 && Window(s, pos, 8) == Window(r, q, 8)
    ensures ScanLen(b, s, pos, l) <= 8 || ScanLen(b, r, q, l) <= 8 ==>
              ScanLen(b, s, pos, l) == ScanLen(b, r, q, l)
    ensures ScanLen(b, r, q, l) > 8 ==> ScanLen(b, s, pos, l) == ScanLen(b, s, pos, 9)
    decreases 9 - l
  {
    hide Next, Window;
    if l < 9 {
      SameWindow(s, pos, r, q, 8, l);
      SameScan(b, s, pos, r, q, l + 1);
    }
  }

  /** The largest code of a length tells whether the code ends there. */
  lemma LimitMeans(t: Table, maxcode: seq<int>, valoffset: seq<int>, s: seq<bit>, start: nat, l: nat)
    requires WellFormed(t) && LimitsUpto(t, maxcode, valoffset, 16) && 0 < l <= 16
    requires Next(t.bits, l - 1) <= Window(s, start, l - 1)
    ensures Window(s, start, l) <= maxcode[l] <==> Window(s, start, l) < Next(t.bits, l)
    ensures Window(s, start, l) <= maxcode[l] ==>
              Upto(t.bits, l - 1) + Window(s, start, l) - 2 * Next(t.bits, l - 1)
              == Window(s, start, l) + valoffset[l]
  {
    UptoStep(t.bits, l);
    assert Window(s, start, l) >= 2 * Window(s, start, l - 1);
  }

  lemma LimitStep(t: Table, d: DTable, s: seq<bit>, start: nat, l: nat)
    requires WellFormed(t) && Upto(t.bits, 16) <= 256 && DecodesTable(t, d) && 0 < l <= 17
    requires ScanLen(t.bits, s, start, 1) == ScanLen(t.bits, s, start, l)
    ensures |d.maxcode| == 18 && |d.valoffset| == 17
    ensures l == 17 ==> Window(s, start, l) <= d.maxcode[l]
    ensures Window(s, start, l) > d.maxcode[l] ==>
              && ScanLen(t.bits, s, start, 1) == ScanLen(t.bits, s, start, l + 1)
              && Window(s, start, l + 1) == Window(s, start, l) * 2 + Window(s, start + l, 1)
  {
    hide LookEntry, Upto;
    Pow2Small();
    assert Pow2(17) == 2 * Pow2(16);
    WindowSplit(s, start, l, 1);
    hide Next, Window, Pow2, LimitsUpto;
    if l <= 16 {
      ScanStart(t.bits, s, start, l);
      LimitMeans(t, d.maxcode, d.valoffset, s, start, l);
    }
  }

  lemma ScanStart(b: seq<nat>, s: seq<bit>, start: nat, l: nat)
    requires |b| == 17 && 0 < l <= 16 && ScanLen(b, s, start, 1) == ScanLen(b, s, start, l)
    ensures Next(b, l - 1) <= Window(s, start, l - 1)
  {
    if l == 1 {
      UptoStep(b, 0);
    }
  }

  lemma LimitFound(t: Table, d: DTable, s: seq<bit>, start: nat, l: nat)
    requires WellFormed(t) && Upto(t.bits, 16) <= 256 && DecodesTable(t, d) && 0 < l <= 17
    requires ScanLen(t.bits, s, start, 1) == ScanLen(t.bits, s, start, l)
    requires |d.maxcode| == 18 && |d.valoffset| == 17 && Window(s, start, l) <= d.maxcode[l]
    ensures l == 17 ==> Decode(t, s, start) == (0, start + l)
    ensures l <= 16 ==>
              var p := Window(s, start, l) + d.valoffset[l];
              0 <= p < 256 && Decode(t, s, start) == (t.vals[p], start + l)
  {
    hide LookEntry, Upto, Next, Window, LimitsUpto;
    if l <= 16 {
      ScanStart(t.bits, s, start, l);
      LimitMeans(t, d.maxcode, d.valoffset, s, start, l);
      DecodeAt(t, s, start, l);
      hide Decode, ScanLen;
    }
  }

  lemma SyncTake(data: seq<byte>, ending: Ending, b: nat, l: nat, src: seq<byte>, p: nat, unread: byte,
                 at: nat, n: nat)
    requires InSync(data, ending, b, l, src, p, unread, at) && n <= l
    ensures InSync(data, ending, b, l - n, src, p, unread, at + n)
    ensures b / Pow2(l - n) % Pow2(n) == Window(Unpack(data), at, n)
  {
    hide Window, Payload, End, Pow2, Unpack;
    TakeBits(Unpack(data), b, l, at, n);
  }

  lemma SyncBounds(data: seq<byte>, ending: Ending, b: nat, l: nat, src: seq<byte>, p: nat, unread: byte,
                   at: nat, insufficient: bool)
    requires InSync(data, ending, b, l, src, p, unread, at)
    ensures p <= |src| && l <= 32 && b < BIT_BUF
    ensures unread == 0 ==> at + l <= 8 * |data|
    ensures unread != 0 ==> 8 * |data| <= at + l
  {
  }

  lemma SyncMarker(data: seq<byte>, ending: Ending, b: nat, l: nat, src: seq<byte>, p: nat, unread: byte,
                   at: nat)
    requires InSync(data, ending, b, l, src, p, unread, at)
    ensures MarkerAhead(src, p, unread) == ending
    ensures 8 * |data| < at + 8 && at + l <= 8 * |data| ==>
              l < 8 && (unread == 0 ==> Payload(src[p..]) == [])
  {
  }

  /** With an empty buffer the reader is in step anywhere on the way to the marker. */
  lemma SyncSkipped(data: seq<byte>, ending: Ending, b: nat, src: seq<byte>, start: nat, p: nat, gone: nat)
    returns (at: nat)
    requires b < BIT_BUF && start <= p <= |src| && StillAhead(src, start, p)
    requires gone % 8 == 0 && gone / 8 <= |data|
    requires Payload(src[start..]) == data[gone / 8..] && End(src[start..]) == ending
    ensures InSync(data, ending, b, 0, src, p, 0, at) && at <= 8 * |data|
  {
    hide Payload, End, Unpack;
    var k := |data| - |Payload(src[p..])|;
    at := 8 * k;
    assert Pow2(0) == 1;
    assert data[gone / 8..][k - gone / 8..] == data[k..];
  }

  lemma EmptyBuffer(data: seq<byte>, b: nat)
    ensures b % Pow2(0) == Window(Unpack(data), 0, 0)
  {
    assert Pow2(0) == 1;
  }

  /** The next item of the input, seen from the bit buffer. */
  lemma SyncItem(data: seq<byte>, ending: Ending, b: nat, l: nat, src: seq<byte>, p: nat, at: nat)
    requires InSync(data, ending, b, l, src, p, 0, at) && l < MIN_GET_BITS
    ensures match Fetch(src[p..])
      case Data(c, used) => InSync(data, ending, (b * 256 + c) % BIT_BUF, l + 8, src, p + used, 0, at)
      case Marker(m, used) => InSync(data, ending, b, l, src, p + used, m, at)
      case Exhausted => ending == Cut
  {
    hide Window, Unpack, Payload, End, Fetch, Pow2;
    PayloadStep(src[p..]);
    match Fetch(src[p..])
    case Data(c, used) =>
      assert src[p..][used..] == src[p + used..];
      LoadNext(data, b, l, at, c);
    case Marker(m, used) =>
      assert src[p..][used..] == src[p + used..];
    case Exhausted =>
  }

  lemma SyncZeros(data: seq<byte>, ending: Ending, b: nat, l: nat, src: seq<byte>, p: nat, unread: byte,
                  at: nat)
    requires InSync(data, ending, b, l, src, p, unread, at) && unread != 0 && l <= MIN_GET_BITS
    ensures InSync(data, ending, b * Pow2(MIN_GET_BITS - l) % BIT_BUF, MIN_GET_BITS, src, p, unread, at)
  {
    hide Window, Payload, End, Pow2;
    PadZeros(Unpack(data), b, l, at);
  }

  lemma LoadNext(data: seq<byte>, buffer: nat, left: nat, at: nat, c: byte)
    requires left <= 24 && buffer % Pow2(left) == Window(Unpack(data), at, left)
    requires (at + left) % 8 == 0 && (at + left) / 8 < |data| && data[(at + left) / 8] == c
    ensures (buffer * 256 + c) % BIT_BUF % Pow2(left + 8) == Window(Unpack(data), at, left + 8)
    ensures data[(at + left) / 8..][1..] == data[(at + (left + 8)) / 8..]
  {
    UnpackByte(data, (at + left) / 8);
    LoadByte(data, buffer, left, at, c);
  }
}
