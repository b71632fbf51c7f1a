/** Byte strings as big-endian base-256 numerals, and the byte stuffing of
    entropy-coded segments (T.81 section B.1.1.5): a data byte 0xFF is followed
    by a zero byte, and 0xFF before any other byte is a marker. */
module Bytes {
  import opened Powers

  type byte = b: int | 0 <= b < 256

  /** The number whose base-256 digits are `s`, most significant first. */
  function Val(s: seq<byte>): (v: nat)
  {
    if s == [] then 0 else Val(s[..|s| - 1]) * 256 + s[|s| - 1]
  }

  function Repeat(b: byte, n: nat): (s: seq<byte>)
    ensures |s| == n
    ensures forall i :: 0 <= i < n ==> s[i] == b
  {
    if n == 0 then [] else Repeat(b, n - 1) + [b]
  }

  lemma ValSnoc(s: seq<byte>, b: byte)
    ensures Val(s + [b]) == Val(s) * 256 + b
  {
    assert (s + [b])[..|s|] == s;
  }

  lemma {:induction false} ValAppend(s: seq<byte>, t: seq<byte>)
    ensures Val(s + t) == Val(s) * Pow2(8 * |t|) + Val(t)
    decreases |t|
  {
    if t == [] {
      assert s + t == s;
    } else {
      var u, b := t[..|t| - 1], t[|t| - 1];
      assert t == u + [b] && s + t == (s + u) + [b];
      ValSnoc(s + u, b);
      ValSnoc(u, b);
      ValAppend(s, u);
      Pow2Add(8, 8 * |u|);
      Pow2Small();
      assert Pow2(8 * |t|) == 256 * Pow2(8 * |u|);
      MulShuffle(Val(s), Pow2(8 * |u|), 256);
    }
  }

  lemma {:induction false} ValBound(s: seq<byte>)
    ensures Val(s) < Pow2(8 * |s|)
    decreases |s|
  {
    if s != [] {
      ValBound(s[..|s| - 1]);
      Pow2Add(8, 8 * (|s| - 1));
      Pow2Small();
    }
  }

  lemma {:induction false} ValZeros(n: nat)
    ensures Val(Repeat(0, n)) == 0
  {
    if n != 0 {
      ValZeros(n - 1);
      ValSnoc(Repeat(0, n - 1), 0);
    }
  }

  lemma RepeatLast(b: seq<byte>, c: byte, n: nat)
    requires n > 0
    ensures b + Repeat(c, n) == (b + Repeat(c, n - 1)) + [c]
  {
    assert Repeat(c, n) == Repeat(c, n - 1) + [c];
  }

  /** Adding one in the last place of a run of 0xFF carries over the whole run. */
  lemma {:induction false} ValCarry(b: byte, n: nat)
    requires b < 255
    ensures Val([b] + Repeat(255, n)) + 1 == Val([b + 1] + Repeat(0, n))
  {
    hide Val, Repeat;
    if n == 0 {
      assert [b] + Repeat(255, 0) == [] + [b] && [b + 1] + Repeat(0, 0) == [] + [b + 1];
      ValSnoc([], b);
      ValSnoc([], b + 1);
    } else {
      var x, y := [b] + Repeat(255, n - 1), [b + 1] + Repeat(0, n - 1);
      calc {
        Val([b] + Repeat(255, n)) + 1;
      == { RepeatLast([b], 255, n); ValSnoc(x, 255); }
        Val(x) * 256 + 255 + 1;
      == { ValCarry(b, n - 1); }
        Val(y) * 256 + 0;
      == { RepeatLast([b + 1], 0, n); ValSnoc(y, 0); }
        Val([b + 1] + Repeat(0, n));
      }
    }
  }

  lemma {:induction false} ValAllOnes(n: nat)
    ensures Val(Repeat(255, n)) + 1 == Pow2(8 * n)
  {
    if n != 0 {
      hide *;
      var x := Repeat(255, n - 1);
      calc {
        Val(Repeat(255, n)) + 1;
      == { RepeatLast([], 255, n); assert [] + Repeat(255, n) == Repeat(255, n) && [] + x == x; ValSnoc(x, 255); }
        Val(x) * 256 + 255 + 1;
      == { ValAllOnes(n - 1); }
        256 * Pow2(8 * (n - 1));
      == { Pow2Small(); Pow2Add(8, 8 * (n - 1)); }
        Pow2(8 * n);
      }
    }
  }

  // ---------------------------------------------------------------- stuffing

  function StuffByte(b: byte): seq<byte>
  {
    if b == 255 then [255, 0] else [b]
  }

  /** The segment as it appears in the file. */
  function Stuff(s: seq<byte>): seq<byte>
  {
    if s == [] then [] else Stuff(s[..|s| - 1]) + StuffByte(s[|s| - 1])
  }

  lemma StuffSnoc(s: seq<byte>, b: byte)
    ensures Stuff(s + [b]) == Stuff(s) + StuffByte(b)
  {
    assert (s + [b])[..|s|] == s;
  }

  lemma {:induction false} StuffAppend(s: seq<byte>, t: seq<byte>)
    ensures Stuff(s + t) == Stuff(s) + Stuff(t)
    decreases |t|
  {
    if t == [] {
      assert s + t == s;
    } else {
      assert s + t == (s + t[..|t| - 1]) + [t[|t| - 1]];
      StuffSnoc(s + t[..|t| - 1], t[|t| - 1]);
      StuffAppend(s, t[..|t| - 1]);
    }
  }

  /** What a reader makes of the bytes from the front of `s`: one data byte and
      the rest, a marker (after any number of fill bytes 0xFF) and the rest, or
      the end of the available input. */
  datatype Fetched = Data(value: byte, used: nat) | Marker(code: byte, used: nat) | Exhausted

  function SkipFill(s: seq<byte>): (n: nat)
    ensures n <= |s| && forall i :: 0 <= i < n ==> s[i] == 255
    ensures n < |s| ==> s[n] != 255
  {
    if s != [] && s[0] == 255 then 1 + SkipFill(s[1..]) else 0
  }

  function Fetch(s: seq<byte>): (f: Fetched)
    ensures !f.Exhausted? ==> 0 < f.used <= |s|
    ensures f.Marker? ==> 0 < f.code < 255
  {
    if s == [] then Exhausted
    else if s[0] != 255 then Data(s[0], 1)
    else
      var n := SkipFill(s);
      if n == |s| then Exhausted
      else if s[n] == 0 then Data(255, n + 1)
      else Marker(s[n], n + 1)
  }

  /** Read the next item at `pos`: `get_byte` repeated over fill bytes.  Of the
      input only the part below `limit` has been supplied so far. */
  method ReadItem(src: seq<byte>, limit: nat, pos: nat) returns (item: Fetched)
    requires pos <= limit <= |src|
    ensures item == Exhausted ==> limit < |src| || Fetch(src[pos..]) == Exhausted
    ensures item != Exhausted ==> item == Fetch(src[pos..]) && pos + item.used <= limit
  {
    ghost var rest := src[pos..];
    if pos == limit {
      return Exhausted;
    }
    if src[pos] != 0xFF {
      return Data(src[pos], 1);
    }
    var next := pos;
    while next < limit && src[next] == 0xFF
      invariant pos <= next <= limit
      invariant SkipFill(rest) == (next - pos) + SkipFill(src[next..])
    {
      assert src[next..][1..] == src[next + 1..];
      next := next + 1;
    }
    if next == limit {
      return Exhausted;
    }
    assert SkipFill(src[next..]) == 0;
    assert rest[next - pos] == src[next];
    if src[next] == 0 {
      return Data(0xFF, next - pos + 1);
    }
    return Marker(src[next], next - pos + 1);
  }

  /** The data bytes in front of the first marker. */
  function Payload(s: seq<byte>): (p: seq<byte>)
    decreases |s|
  {
    var f := Fetch(s);
    if f.Data? then [f.value] + Payload(s[f.used..]) else []
  }

  /** How the run of data bytes at the front of `s` ends: the marker code, or
      `None` when the input ends first. */
  datatype Ending = At(code: byte, rest: seq<byte>) | Cut

  function End(s: seq<byte>): (e: Ending)
    decreases |s|
  {
    match Fetch(s)
    case Data(_, used) => End(s[used..])
    case Marker(code, used) => At(code, s[used..])
    case Exhausted => Cut
  }

  lemma PayloadStep(s: seq<byte>)
    ensures Fetch(s).Data? ==>
              && Payload(s) == [Fetch(s).value] + Payload(s[Fetch(s).used..])
              && End(s) == End(s[Fetch(s).used..])
    ensures Fetch(s).Marker? ==>
              Payload(s) == [] && End(s) == At(Fetch(s).code, s[Fetch(s).used..])
    ensures Fetch(s).Exhausted? ==> Payload(s) == [] && End(s) == Cut
  {
  }

  /** A stuffed byte is read back. */
  lemma FetchStuffed(b: byte, rest: seq<byte>)
    ensures Fetch(StuffByte(b) + rest) == Data(b, |StuffByte(b)|)
    ensures (StuffByte(b) + rest)[|StuffByte(b)|..] == rest
  {
    var all := StuffByte(b) + rest;
    if b == 255 {
      assert SkipFill(all) == 1 by { assert SkipFill(all[1..]) == 0; }
    }
  }

  lemma FetchMarker(code: byte, tail: seq<byte>)
    requires 0 < code < 255
    ensures Fetch([255, code] + tail) == Marker(code, 2) && ([255, code] + tail)[2..] == tail
  {
    var m := [255, code] + tail;
    assert SkipFill(m) == 1 by { assert SkipFill(m[1..]) == 0; }
  }

  lemma StuffHead(s: seq<byte>)
    requires s != []
    ensures Stuff(s) == StuffByte(s[0]) + Stuff(s[1..])
  {
    assert s == [s[0]] + s[1..] && [] + [s[0]] == [s[0]];
    StuffAppend([s[0]], s[1..]);
    StuffSnoc([], s[0]);
    assert Stuff([]) == [];
  }

  /** Reading back a stuffed segment that a marker follows: exactly the data
      bytes, and the reader stops just after that marker. */
  lemma {:induction false} UnstuffStuff(s: seq<byte>, code: byte, tail: seq<byte>)
    requires 0 < code < 255
    ensures Payload(Stuff(s) + [255, code] + tail) == s
    ensures End(Stuff(s) + [255, code] + tail) == At(code, tail)
    decreases |s|
  {
    hide Payload, End, Fetch, StuffByte;
    var all := Stuff(s) + [255, code] + tail;
    if s == [] {
      assert all == [255, code] + tail;
      FetchMarker(code, tail);
    } else {
      hide Stuff;
      StuffHead(s);
      var rest := Stuff(s[1..]) + [255, code] + tail;
      assert all == StuffByte(s[0]) + rest;
      FetchStuffed(s[0], rest);
      UnstuffStuff(s[1..], code, tail);
    }
    PayloadStep(all);
  }

  /** Inside a stuffed segment every 0xFF is followed by 0x00, so no marker can
      be mistaken for data. */
  lemma {:induction false} StuffHasNoMarker(s: seq<byte>, i: nat)
    requires i < |Stuff(s)| && Stuff(s)[i] == 255
    ensures i + 1 < |Stuff(s)| && Stuff(s)[i + 1] == 0
    decreases |s|
  {
    var t := Stuff(s[..|s| - 1]);
    if i < |t| {
      StuffHasNoMarker(s[..|s| - 1], i);
    }
  }

  // ----------------------------------------------------------------- markers

  /** next_marker (jdmarker.c): skip to the next marker, counting the bytes skipped.
      Not `ok` when the supplied input ends first; skipped bytes stay skipped. */
  method NextMarker(src: seq<byte>, limit: nat, start: nat)
    returns (ok: bool, pos: nat, marker: byte, discarded: nat)
    requires start <= limit <= |src|
    ensures start <= pos <= limit && (ok ==> End(src[start..]) == At(marker, src[pos..]))
    ensures ok ==> 0 < marker && (discarded == 0 <==> Payload(src[start..]) == [])
    ensures !ok ==> limit < |src| || End(src[start..]) == Cut
    ensures !ok ==> marker == 0 && StillAhead(src, start, pos)
  {
    hide Fetch, End, Payload, StillAhead, SkipFill;
    pos, discarded, marker := start, 0, 0;
    StillHere(src, start);
    while true
      invariant start <= pos <= limit && StillAhead(src, start, pos) && End(src[pos..]) == End(src[start..])
      invariant discarded == 0 ==> Payload(src[pos..]) == Payload(src[start..])
      invariant discarded != 0 ==> Payload(src[start..]) != []
      decreases limit - pos
    {
      ghost var rest := src[pos..];
      PayloadStep(rest);
      var item := ReadItem(src, limit, pos);
      if item == Exhausted {
        return false, pos, 0, discarded;
      }
      pos := pos + item.used;
      assert rest[item.used..] == src[pos..];
      if item.Marker? {
        return true, pos, item.code, discarded;
      }
      StillAheadStep(src, start, pos - item.used, pos);
      discarded := discarded + if item.value == 0xFF then 2 else 1;
    }
  }

  /** From `pos` the same marker is ahead as from `start`, after fewer data bytes. */
  ghost predicate StillAhead(src: seq<byte>, start: nat, pos: nat)
    requires start <= pos <= |src|
  {
    var before, left := Payload(src[start..]), Payload(src[pos..]);
    && End(src[pos..]) == End(src[start..])
    && |left| <= |before| && left == before[|before| - |left|..]
  }

  lemma StillHere(src: seq<byte>, start: nat)
    requires start <= |src|
    ensures StillAhead(src, start, start)
  {
    var before := Payload(src[start..]);
    assert before[0..] == before;
  }

  lemma StillAheadStep(src: seq<byte>, start: nat, pos: nat, next: nat)
    requires start <= pos < next <= |src| && StillAhead(src, start, pos)
    requires End(src[next..]) == End(src[pos..])
    requires |Payload(src[pos..])| == 1 + |Payload(src[next..])|
    requires Payload(src[pos..])[1..] == Payload(src[next..])
    ensures StillAhead(src, start, next)
  {
    var before, mid := Payload(src[start..]), Payload(src[pos..]);
    assert before[|before| - |mid|..][1..] == before[|before| - |mid| + 1..];
  }

  /** Where the marker met in the input, or else the next one, is. */
  ghost function MarkerAhead(src: seq<byte>, start: nat, unread: byte): Ending
    requires start <= |src|
  {
    if unread != 0 then At(unread, src[start..]) else End(src[start..])
  }

  /** The restart marker was read, another marker is next, or more input is needed. */
  datatype RestartRead = Found | Unexpected | Waiting

  /** read_restart_marker (jdmarker.c): the given restart marker must come next. */
  method ReadRestartMarker(src: seq<byte>, limit: nat, start: nat, unread: byte, restartNum: nat)
    returns (r: RestartRead, pos: nat, marker: byte, discarded: nat)
    requires start <= limit <= |src| && restartNum < 8
    ensures start <= pos <= limit
    ensures var e := MarkerAhead(src, start, unread);
      && (r.Found? ==> e == At(0xD0 + restartNum, src[pos..]))
      && (r.Unexpected? ==> e.At? && e.code != 0xD0 + restartNum)
      && (r.Waiting? ==> limit < |src| || e == Cut)
    ensures r.Waiting? ==> unread == 0 && marker == 0 && StillAhead(src, start, pos)
    ensures r.Found? && unread == 0 && Payload(src[start..]) == [] ==> discarded == 0
    ensures unread != 0 ==> discarded == 0
  {
    hide Payload, End, StillAhead;
    pos, marker, discarded := start, unread, 0;
    if unread == 0 {
      var ok;
      ok, pos, marker, discarded := NextMarker(src, limit, start);
      if !ok {
        r := Waiting;
        return;
      }
    }
    r := if marker == 0xD0 + restartNum then Found else Unexpected;
  }
}
