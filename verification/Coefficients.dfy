/** Coefficients: magnitudes, point transforms, blocks in zigzag and natural order. */
module Coefficients {
  import opened Powers

  // --------------------------------------------------------------- numbers

  function Abs(x: int): nat
  {
    if x < 0 then -x else x
  }

  function SignBit(x: int): nat
  {
    if x < 0 then 1 else 0
  }

  function Signed(sign: nat, p: int): int
  {
    if sign == 1 then -p else p
  }

  /** JCOEF is a 16-bit type. */
  function ToCoef(x: int): (y: int)
    ensures -0x8000 <= y < 0x8000
    ensures -0x8000 <= x < 0x8000 ==> y == x
  {
    (x + 0x8000) % 0x1_0000 - 0x8000
  }

  lemma AddProduct(a: int, b: int, p: int)
    ensures (a + b) * p == a * p + b * p
  {
  }

  lemma NegateProduct(s: int, p: int)
    ensures (-s) * p == -(s * p)
  {
  }

  /** Floor of the binary logarithm. */
  function Levels(v: nat): nat
    requires v > 0
  {
    if v / 2 == 0 then 0 else 1 + Levels(v / 2)
  }

  lemma {:induction false} LevelsBound(v: nat)
    requires v > 0
    ensures Pow2(Levels(v)) <= v < 2 * Pow2(Levels(v))
  {
    if v / 2 != 0 {
      LevelsBound(v / 2);
    }
  }

  lemma {:induction false} LevelsLimit(v: nat, n: nat)
    requires v > 0
    ensures Levels(v) < n <==> v < Pow2(n)
  {
    LevelsBound(v);
    if Levels(v) < n {
      Pow2Monotone(Levels(v) + 1, n);
    } else {
      Pow2Monotone(n, Levels(v));
    }
  }

  /** `x >> n` for a nonnegative `x`. */
  function Shift(x: nat, n: nat): (s: nat)
    ensures s <= x
  {
    if n == 0 then x else Shift(x, n - 1) / 2
  }

  /** The number in the low `j` bits of `v`. */
  function Low(v: nat, j: nat): (r: nat)
    ensures r < Pow2(j)
  {
    if j == 0 then 0
    else if Shift(v, j - 1) % 2 == 1 then Pow2(j - 1) + Low(v, j - 1)
    else Low(v, j - 1)
  }

  lemma {:induction false} ShiftLow(v: nat, j: nat)
    ensures Shift(v, j) * Pow2(j) + Low(v, j) == v
  {
    if j != 0 {
      ShiftLow(v, j - 1);
      HalveProduct(Shift(v, j - 1), Pow2(j - 1));
    }
  }

  lemma HalveProduct(s: nat, p: nat)
    ensures s * p == s / 2 * (2 * p) + (if s % 2 == 1 then p else 0)
  {
    MulShuffle(s / 2, 2, p);
    assert s == 2 * (s / 2) + s % 2;
    assert s * p == 2 * (s / 2) * p + s % 2 * p;
  }

  lemma HalfQuotient(v: nat, p: nat)
    requires 0 < p
    ensures v / (2 * p) == v / p / 2
  {
    var q := v / p;
    HalveProduct(q, p);
    QuotientIs(v, 2 * p, q / 2, v % p + if q % 2 == 1 then p else 0);
  }

  lemma {:induction false} ShiftIsDivision(v: nat, n: nat)
    ensures Shift(v, n) == v / Pow2(n)
  {
    if n != 0 {
      ShiftIsDivision(v, n - 1);
      var p, q := Pow2(n - 1), v / Pow2(n - 1);
      MulShuffle(q / 2, 2, p);
      HalfQuotient(v, p);
    }
  }

  // ------------------------------------------------------ point transforms

  /** Point transform of an AC coefficient: the magnitude is shifted. */
  function Point(x: int, al: nat): (y: int)
  {
    Signed(SignBit(x), Shift(Abs(x), al))
  }

  lemma SignedBounds(x: int, s: nat, p: nat, low: nat)
    requires -0x8000 <= x < 0x8000 && s * p + low == Abs(x)
    ensures -0x8000 <= Signed(SignBit(x), s) * p < 0x8000
  {
    NegateProduct(s, p);
  }

  lemma PointBounds(x: int, al: nat)
    requires -0x8000 <= x < 0x8000
    ensures Abs(Point(x, al)) <= 0x8000 && -0x8000 <= Point(x, al) * Pow2(al) < 0x8000
    ensures Abs(Point(x, al)) == Shift(Abs(x), al)
    ensures al == 0 ==> Point(x, al) == x
  {
    ShiftLow(Abs(x), al);
    assert al == 0 ==> Shift(Abs(x), al) == Abs(x);
    SignedBounds(x, Shift(Abs(x), al), Pow2(al), Low(Abs(x), al));
    hide Shift, Pow2, Low;
  }

  /** A value shifted towards zero, as its magnitude is. */
  function Transformed(x: int, al: nat): int
  {
    if x < 0 then -(-x / Pow2(al)) else x / Pow2(al)
  }

  lemma PointTransformed(x: int, al: nat)
    ensures Point(x, al) == Transformed(x, al)
    ensures Point(x, al) == 0 <==> Abs(x) / Pow2(al) == 0
    ensures Abs(Point(x, al)) == Abs(x) / Pow2(al)
  {
    ShiftIsDivision(Abs(x), al);
    hide Shift, Pow2;
  }

  /** `x >> n` of a signed value: towards minus infinity. */
  function ShiftDown(x: int, n: nat): int
  {
    if n == 0 then x else ShiftDown(x, n - 1) / 2
  }

  lemma {:induction false} ShiftDownFloor(x: int, n: nat)
    ensures ShiftDown(x, n) * Pow2(n) <= x < (ShiftDown(x, n) + 1) * Pow2(n)
  {
    if n != 0 {
      var s, p := ShiftDown(x, n - 1), Pow2(n - 1);
      ShiftDownFloor(x, n - 1);
      MulShuffle(s / 2, 2, p);
      MulShuffle(s / 2 + 1, 2, p);
      MulLe(2 * (s / 2), s, p);
      MulLe(s + 1, 2 * (s / 2 + 1), p);
    }
  }

  lemma ShiftDownQuotient(x: int, al: nat)
    ensures ShiftDown(x, al) == x / Pow2(al)
  {
    ShiftDownFloor(x, al);
    FloorIs(x, Pow2(al), ShiftDown(x, al));
    hide ShiftDown, Pow2;
  }

  lemma FloorIs(x: int, d: nat, q: int)
    requires 0 < d && q * d <= x < (q + 1) * d
    ensures x / d == q
  {
    var e := x / d;
    if e < q {
      MulLe(e + 1, q, d);
    } else if e > q {
      MulLe(q + 1, e, d);
    }
  }

  lemma FloorBounds(x: int, q: int, p: nat, r: nat)
    requires q * p <= x < (q + 1) * p && p * r == 0x8000 && -0x8000 <= x
    ensures -0x8000 <= q * p
  {
    NegateProduct(r, p);
    if q < -(r as int) {
      MulLe(q + 1, -(r as int), p);
    } else {
      MulLe(-(r as int), q, p);
    }
  }

  lemma ShiftDownBounds(x: int, n: nat)
    requires n <= 14 && -0x8000 <= x < 0x8000
    ensures -0x8000 <= ShiftDown(x, n) * Pow2(n) <= x
    ensures ShiftDown(x, n) == 2 * ShiftDown(x, n + 1) + ShiftDown(x, n) % 2
  {
    assert ShiftDown(x, n + 1) == ShiftDown(x, n) / 2;
    ShiftDownFloor(x, n);
    Pow2Add(n, 15 - n);
    Pow2Small();
    hide ShiftDown, Pow2;
    FloorBounds(x, ShiftDown(x, n), Pow2(n), Pow2(15 - n));
  }

  lemma {:induction false} DcOfCoef(x: int, n: nat)
    requires -0x8000 <= x < 0x8000
    ensures -0x8000 <= ShiftDown(x, n) < 0x8000
  {
    if n != 0 {
      DcOfCoef(x, n - 1);
    }
  }

  /** Set the bit `p1` of a two's-complement value. */
  function OrBit(x: int, p1: nat): int
    requires p1 > 0
  {
    if x / p1 % 2 == 1 then x else ToCoef(x + p1)
  }

  lemma BitOfProduct(h: int, p: nat)
    requires 0 < p
    ensures 2 * h * p / p % 2 == 0
  {
    var q := 2 * h * p / p;
    MulCompare(q, 2 * h, p);
    MulCompare(2 * h, q, p);
    MulCompare(q + 1, 2 * h, p);
  }

  /** Adding the next bit of a two's-complement value. */
  lemma NextBit(h: int, d: int, p: nat)
    requires 0 < p && d == 2 * h + d % 2 && -0x8000 <= d * p < 0x8000
    ensures d * p == if d % 2 == 1 then OrBit(2 * h * p, p) else 2 * h * p
  {
    BitOfProduct(h, p);
    var bit := d % 2;
    AddProduct(2 * h, bit, p);
  }

  // ----------------------------------------------------------------- lists

  lemma Regroup<T>(a: seq<T>, b: seq<T>, c: seq<T>)
    ensures a + (b + c) == (a + b) + c
  {
  }

  /** Nothing but zeros. */
  predicate Quiet(c: seq<int>)
  {
    c == [] || (c[0] == 0 && Quiet(c[1..]))
  }

  function Zeros(n: nat): (s: seq<int>)
    ensures |s| == n
  {
    if n == 0 then [] else [0] + Zeros(n - 1)
  }

  lemma {:induction false} QuietIsZeros(c: seq<int>)
    ensures Quiet(c) <==> c == Zeros(|c|)
  {
    if c != [] {
      QuietIsZeros(c[1..]);
      assert c == [c[0]] + c[1..] && Zeros(|c|) == [0] + Zeros(|c| - 1);
      assert Zeros(|c|)[1..] == Zeros(|c| - 1);
    }
  }

  lemma {:induction false} ZerosAt(n: nat)
    ensures forall j :: 0 <= j < n ==> Zeros(n)[j] == 0
  {
    if n != 0 {
      ZerosAt(n - 1);
    }
  }

  function Points(c: seq<int>, al: nat): (t: seq<int>)
    ensures |t| == |c| && forall j :: 0 <= j < |c| ==> t[j] == Point(c[j], al)
  {
    if c == [] then [] else [Point(c[0], al)] + Points(c[1..], al)
  }

  // ---------------------------------------------------------------- blocks

  /** A block of coefficients in zigzag order. */
  type Zigzag = s: seq<int> | |s| == 64 witness Zeros(64)

  ghost predicate IsJcoef(x: Zigzag)
  {
    forall j :: 0 <= j < 64 ==> -0x8000 <= x[j] < 0x8000
  }

  lemma JcoefStore(b: Zigzag, k: nat, v: int)
    requires IsJcoef(b) && k < 64 && -0x8000 <= v < 0x8000
    ensures IsJcoef(b[k := v])
  {
  }

  /** The point transform of coefficient `j` at bit position `al`, scaled back. */
  function Staged(x: Zigzag, j: nat, al: nat): int
    requires j < 64
  {
    if j == 0 then ShiftDown(x[0], al) * Pow2(al) else Point(x[j], al) * Pow2(al)
  }

  /** Last nonzero position in 1..se, or 0. */
  function LastNonzero(c: Zigzag, se: nat): (ke: nat)
    requires se < 64
    ensures ke <= se && (ke != 0 ==> c[ke] != 0)
    ensures forall j :: ke < j <= se ==> c[j] == 0
  {
    if se == 0 || c[se] != 0 then se else LastNonzero(c, se - 1)
  }

  function Replace(b: Zigzag, at: nat, c: seq<int>): (r: Zigzag)
    requires at + |c| <= 64
    ensures forall j :: 0 <= j < 64 ==> r[j] == if at <= j < at + |c| then c[j - at] else b[j]
  {
    b[..at] + c + b[at + |c|..]
  }

  /** Natural order of coefficients, from zigzag order. */
  predicate IsOrder(order: seq<nat>)
  {
    && |order| == 64 && order[0] == 0 && (forall k :: 0 <= k < 64 ==> order[k] < 64)
    && forall j, k :: 0 <= j < k < 64 ==> order[j] != order[k]
  }

  function InZigzag(order: seq<nat>, block: Zigzag): (x: Zigzag)
    requires IsOrder(order)
    ensures forall k :: 0 <= k < 64 ==> x[k] == block[order[k]]
  {
    seq(64, k requires 0 <= k < 64 => block[order[k]])
  }

  lemma InZigzagJcoef(order: seq<nat>, block: Zigzag)
    requires IsOrder(order) && IsJcoef(block)
    ensures IsJcoef(InZigzag(order, block))
  {
  }

  lemma StoreInZigzag(order: seq<nat>, block: Zigzag, k: nat, v: int)
    requires IsOrder(order) && k < 64
    ensures InZigzag(order, block[order[k] := v]) == InZigzag(order, block)[k := v]
  {
  }

  /** The decoded block so far, in zigzag order. */
  ghost function Held(order: seq<nat>, block: array<int>): Zigzag
    requires IsOrder(order) && block.Length == 64
    reads block
  {
    InZigzag(order, block[..])
  }

  lemma HeldAt(order: seq<nat>, block: array<int>, k: nat)
    requires IsOrder(order) && block.Length == 64 && k < 64
    ensures |order| == 64 && order[k] < 64 && Held(order, block)[k] == block[order[k]]
  {
  }

  method Store(order: seq<nat>, block: array<int>, k: nat, v: int)
    requires IsOrder(order) && block.Length == 64 && k < 64
    modifies block
    ensures Held(order, block) == old(Held(order, block))[k := v]
  {
    StoreInZigzag(order, block[..], k, v);
    block[order[k]] := v;
    assert block[..] == old(block[..])[order[k] := v];
  }

  /** The blocks of an MCU. */
  ghost predicate Blocks(blocks: seq<array<int>>)
  {
    && (forall i :: 0 <= i < |blocks| ==> blocks[i].Length == 64)
    && forall i, j :: 0 <= i < j < |blocks| ==> blocks[i] != blocks[j]
  }

  lemma BlocksApart(blocks: seq<array<int>>)
    requires Blocks(blocks)
    ensures forall i :: 0 <= i < |blocks| ==> blocks[i].Length == 64
    ensures forall i, j :: 0 <= i < j < |blocks| ==> blocks[i] != blocks[j]
  {
  }

  ghost function AllHeld(order: seq<nat>, blocks: seq<array<int>>): (h: seq<Zigzag>)
    requires IsOrder(order) && Blocks(blocks)
    reads blocks
    ensures |h| == |blocks| && forall i :: 0 <= i < |blocks| ==> h[i] == Held(order, blocks[i])
  {
    if blocks == [] then [] else [Held(order, blocks[0])] + AllHeld(order, blocks[1..])
  }
}
