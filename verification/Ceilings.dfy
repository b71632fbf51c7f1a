/** Ceiling division, by which dimensions in blocks and row groups are figured from the
    image size (jdiv_round_up). */
module Ceilings {
  import opened Powers

  /** Ceiling division, as jdiv_round_up. */
  function DivUp(a: nat, b: nat): (q: nat)
    requires 0 < b
    ensures a <= q * b && (0 < a ==> 0 < q && (q - 1) * b < a)
  {
    (a + b - 1) / b
  }

  /** The ceiling is the one number between these bounds. */
  lemma DivUpIs(a: nat, b: nat, q: nat)
    requires 0 < b && 0 < q && (q - 1) * b < a <= q * b
    ensures DivUp(a, b) == q
  {
    var p := DivUp(a, b);
    if p < q {
      MulLe(p, q - 1, b);
    } else if q < p {
      MulLe(q, p - 1, b);
    }
  }

  /** Nested ceilings: rounding the rows of a component up first does not change the number
      of its row groups, which is therefore the same for all components. */
  lemma NestedCeilings(h: nat, r: nat, v: nat)
    requires 0 < h && 0 < r && 0 < v
    ensures DivUp(DivUp(h * r, v), r) == DivUp(h, v)
  {
    var q := DivUp(h, v);
    var p := DivUp(h * r, v);
    MulLe(h, q * v, r);
    MulShuffle(q, r, v);
    assert p <= q * r by {
      if q * r < p { MulLe(q * r, p - 1, v); }
    }
    MulLt((q - 1) * v, h, r);
    MulShuffle(q - 1, r, v);
    assert (q - 1) * r < p by {
      if p <= (q - 1) * r { MulLe(p, (q - 1) * r, v); }
    }
    DivUpIs(p, r, q);
  }
}
