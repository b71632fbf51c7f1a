/** Powers of two and the few non-linear facts the coders need.
    A C shift by `n` bits is multiplication or division by `Pow2(n)`. */
module Powers {

  function Pow2(n: nat): (r: nat)
    ensures r > 0
  {
    if n == 0 then 1 else 2 * Pow2(n - 1)
  }

  lemma {:induction false} Pow2Add(m: nat, n: nat)
    ensures Pow2(m + n) == Pow2(m) * Pow2(n)
  {
    if m != 0 {
      Pow2Add(m - 1, n);
      assert Pow2(m + n) == 2 * Pow2(m - 1 + n);
    }
  }

  lemma {:induction false} Pow2Monotone(m: nat, n: nat)
    requires m <= n
    ensures Pow2(m) <= Pow2(n)
    decreases n
  {
    if m < n {
      Pow2Monotone(m, n - 1);
    }
  }

  /** The constants that appear in the registers. */
  lemma Pow2Small()
    ensures Pow2(0) == 1 && Pow2(1) == 2 && Pow2(2) == 4 && Pow2(3) == 8 && Pow2(4) == 16
    ensures Pow2(5) == 32 && Pow2(6) == 64 && Pow2(7) == 128 && Pow2(8) == 0x100
    ensures Pow2(11) == 0x800 && Pow2(13) == 0x2000 && Pow2(14) == 0x4000
    ensures Pow2(15) == 0x8000 && Pow2(16) == 0x1_0000
    ensures Pow2(19) == 0x8_0000 && Pow2(24) == 0x100_0000 && Pow2(27) == 0x800_0000
  {
    assert Pow2(4) == 16;
    assert Pow2(8) == 256;
    assert Pow2(12) == 4096;
    assert Pow2(16) == 65536;
    assert Pow2(20) == 1048576;
    assert Pow2(24) == 16777216;
  }

  lemma MulLe(a: int, b: int, k: nat)
    requires a <= b
    ensures a * k <= b * k
  {
  }

  lemma MulLt(a: int, b: int, k: int)
    requires a < b && 0 < k
    ensures a * k < b * k
  {
  }

  /** Multiplying both sides by a positive factor decides the same comparison. */
  lemma MulCompare(a: int, b: int, k: int)
    requires 0 < k
    ensures a <= b <==> a * k <= b * k
    ensures a < b <==> a * k < b * k
  {
    if a < b {
      MulLt(a, b, k);
    } else if b < a {
      MulLt(b, a, k);
    }
  }

  lemma MulShuffle(a: int, b: int, c: int)
    ensures (a * b) * c == (a * c) * b
    ensures (a * b) * c == a * (b * c)
  {
  }

  lemma QuotientIs(v: nat, d: nat, q: nat, r: nat)
    requires v == q * d + r && r < d
    ensures v / d == q
  {
    var w := v / d;
    if w < q {
      MulLe(w + 1, q, d);
    } else if q < w {
      MulLe(q + 1, w, d);
    }
  }

  lemma RemainderIs(v: nat, d: nat, q: nat, r: nat)
    requires v == q * d + r && r < d
    ensures v % d == r && v / d == q
  {
    QuotientIs(v, d, q, r);
  }
}
